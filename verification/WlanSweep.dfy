/** The choice between a full and a narrowed WLAN sweep, per passive test. */
module WlanSweep {
  import opened Sequences
  import opened Sorting
  import opened WlanRetention

  predicate NatLe(a: nat, b: nat) {
    a <= b
  }

  ghost predicate OnChannel(nets: map<string, Network>, c: nat) {
    exists b | b in nets :: nets[b].info.channel == c
  }

  ghost predicate Lists(list: seq<Network>, c: nat) {
    exists i | 0 <= i < |list| :: list[i].info.channel == c
  }

  /** Exactly the known channels of the retained networks, strictly ascending. */
  ghost predicate ChannelsOf(channels: seq<nat>, nets: map<string, Network>) {
    && (forall i, j | 0 <= i < j < |channels| :: channels[i] < channels[j])
    && (forall c :: c in channels <==> c > 0 && OnChannel(nets, c))
  }

  method ExtractInterestingChannels(list: seq<Network>, ghost nets: map<string, Network>) returns (channels: seq<nat>)
    requires ListsExactly(list, nets) && Keyed(nets)
    ensures ChannelsOf(channels, nets)
  {
    var seen := {};
    for k := 0 to |list|
      invariant forall c :: c in seen <==> c > 0 && Lists(list[..k], c)
    {
      ListsSnoc(list[..k], list[k]);
      assert list[..k + 1] == list[..k] + [list[k]];
      if list[k].info.channel > 0 {
        seen := seen + {list[k].info.channel};
      }
    }
    assert list[..|list|] == list;
    ghost var all := seen;
    channels := [];
    while seen != {}
      invariant seen <= all
      invariant forall c :: c in channels <==> c in all && c !in seen
      invariant forall i, j | 0 <= i < j < |channels| :: channels[i] != channels[j]
    {
      var c :| c in seen;
      seen := seen - {c};
      channels := channels + [c];
    }
    var sorted := SortSlice(channels, NatLe);
    SortedSet(channels, sorted);
    channels := sorted;
    ListedChannels(list, nets);
  }

  lemma SortedSet(s: seq<nat>, r: seq<nat>)
    requires multiset(s) == multiset(r) && SortedBy(r, NatLe)
    requires forall i, j | 0 <= i < j < |s| :: s[i] != s[j]
    ensures forall i, j | 0 <= i < j < |r| :: r[i] < r[j]
    ensures forall c :: c in r <==> c in s
  {
    forall c
      ensures c in r <==> c in s
    {
      assert c in r <==> c in multiset(r);
    }
    forall i, j | 0 <= i < j < |r|
      ensures r[i] < r[j]
    {
      assert NatLe(r[i], r[j]);
      if r[i] == r[j] {
        CountTwo(r, i, j);
        TwoPlaces(s, r[i]);
      }
    }
  }

  lemma ListsSnoc(list: seq<Network>, n: Network)
    ensures forall c :: Lists(list + [n], c) <==> Lists(list, c) || n.info.channel == c
  {
    forall c
      ensures Lists(list + [n], c) <==> Lists(list, c) || n.info.channel == c
    {
      var longer := list + [n];
      assert longer[|list|] == n;
      if Lists(list, c) {
        var i :| 0 <= i < |list| && list[i].info.channel == c;
        assert longer[i].info.channel == c;
      }
    }
  }

  lemma ListedChannels(list: seq<Network>, nets: map<string, Network>)
    requires ListsExactly(list, nets) && Keyed(nets)
    ensures forall c :: Lists(list, c) <==> OnChannel(nets, c)
  {
    forall c
      ensures Lists(list, c) <==> OnChannel(nets, c)
    {
      if b :| b in nets && nets[b].info.channel == c {
        assert nets[b] in list;
      }
      if i :| 0 <= i < |list| && list[i].info.channel == c {
        assert list[i] in list;
      }
    }
  }

  const FRESH := PassiveState([], 0, map[], map[])

  /** None sweeps the whole spectrum. */
  function Plan(s: Option<PassiveState>, start: int): Option<seq<nat>> {
    if s.None? || s.value.channels == [] || start - s.value.lastFullSweep >= RETENTION_NS then None
    else Some(s.value.channels)
  }

  /** Every retained access point with a known channel is on the watch list. */
  ghost predicate Watched(s: PassiveState) {
    forall b | b in s.networks && s.networks[b].info.channel > 0 :: s.networks[b].info.channel in s.channels
  }

  /** One completed sweep. */
  ghost predicate Completed(was: PassiveState, sweep: Sweep, full: bool, fullAt: int, now: PassiveState) {
    && now.networks == Merged(was.networks, sweep.networks, sweep.now)
    && now.stations == Merged(was.stations, sweep.stations, sweep.now)
    && now.lastFullSweep == (if full then fullAt else was.lastFullSweep)
    && (ChannelsOf(now.channels, now.networks) || (ChannelsOf([], now.networks) && now.channels == was.channels != []))
  }

  /** Whatever a sweep hears, the access points still retained stay watched. */
  lemma CompletedStaysWatched(was: PassiveState, sweep: Sweep, full: bool, fullAt: int, now: PassiveState)
    requires Completed(was, sweep, full, fullAt, now)
    ensures Watched(now)
  {
    forall b | b in now.networks && now.networks[b].info.channel > 0
      ensures now.networks[b].info.channel in now.channels
    {
      assert OnChannel(now.networks, now.networks[b].info.channel);
    }
  }

  /** What runWlanPassive does to a test's state once a sweep has come back. */
  method CompleteSweep(state: WlanPassiveState, sweep: Sweep, fullSweep: bool, fullAt: int) returns (roams: seq<RoamEvent>)
    requires state.Valid()
    modifies state
    ensures state.Valid() && Watched(state.Contents())
    ensures Completed(old(state.Contents()), sweep, fullSweep, fullAt, state.Contents())
    ensures Emits(roams, old(state.networks), old(state.stations), sweep)
  {
    if fullSweep {
      state.lastFullSweep := fullAt;
    }
    var networks, stations;
    networks, stations, roams := state.MergeRetained(sweep);
    var interesting := ExtractInterestingChannels(networks, state.networks);
    if |interesting| == 0 && |state.channels| > 0 {
      interesting := state.channels;
    }
    state.channels := interesting;
    CompletedStaysWatched(old(state.Contents()), sweep, fullSweep, fullAt, state.Contents());
  }

  // ---------------------------------------------------------------------
  // Runs of one test
  // ---------------------------------------------------------------------

  /** One run of a test: when it starts, what its sweep heard (None when it
      failed) and the clock reading a full sweep is dated by. */
  datatype Pass = Pass(start: int, heard: Option<Sweep>, fullAt: int)

  function Before(s: Option<PassiveState>): PassiveState {
    if s.Some? then s.value else FRESH
  }

  ghost predicate Follows(was: Option<PassiveState>, pass: Pass, now: Option<PassiveState>) {
    match pass.heard
    case None => now == was
    case Some(sweep) => now.Some? && Completed(Before(was), sweep, Plan(was, pass.start).None?, pass.fullAt, now.value)
  }

  /** states[k] is the test's state before pass k; there is none at first. */
  ghost predicate Passes(passes: seq<Pass>, states: seq<Option<PassiveState>>) {
    && |states| == |passes| + 1 && states[0] == None
    && forall k | 0 <= k < |passes| :: Follows(states[k], passes[k], states[k + 1])
  }

  /** The sweeps that came back, as the retention saw them. */
  function HeardRounds(passes: seq<Pass>): seq<Round<NetworkInfo>> {
    if passes == [] then []
    else
      HeardRounds(passes[..|passes| - 1]) +
      match passes[|passes| - 1].heard
      case None => []
      case Some(sweep) => [Round(sweep.networks, sweep.now)]
  }

  /** Pass k completed a full sweep. */
  ghost predicate FullPass(passes: seq<Pass>, states: seq<Option<PassiveState>>, k: nat)
    requires |states| == |passes| + 1
  {
    k < |passes| && passes[k].heard.Some? && Plan(states[k], passes[k].start).None?
  }

  /** What every state reached by a run satisfies. */
  ghost predicate Reached(s: Option<PassiveState>, rounds: seq<Round<NetworkInfo>>) {
    match s
    case None => rounds == []
    case Some(now) => rounds != [] && now.networks == Retained(rounds) && Watched(now)
  }

  lemma PassesInit(passes: seq<Pass>, states: seq<Option<PassiveState>>)
    requires Passes(passes, states) && passes != []
    ensures Passes(passes[..|passes| - 1], states[..|passes|])
  {
  }

  lemma {:induction false} PassesReach(passes: seq<Pass>, states: seq<Option<PassiveState>>)
    requires Passes(passes, states)
    ensures Reached(states[|passes|], HeardRounds(passes))
  {
    if passes != [] {
      var n := |passes| - 1;
      PassesInit(passes, states);
      PassesReach(passes[..n], states[..n + 1]);
      assert Follows(states[n], passes[n], states[n + 1]);
      PassReaches(states[n], HeardRounds(passes[..n]), passes[n], states[n + 1]);
    }
  }

  lemma PassReaches(was: Option<PassiveState>, rounds: seq<Round<NetworkInfo>>, pass: Pass, now: Option<PassiveState>)
    requires Reached(was, rounds) && Follows(was, pass, now)
    ensures Reached(now, rounds + match pass.heard case None => [] case Some(sweep) => [Round(sweep.networks, sweep.now)])
  {
    match pass.heard
    case None =>
      assert rounds + [] == rounds;
    case Some(sweep) =>
      var longer := rounds + [Round(sweep.networks, sweep.now)];
      assert longer[..|rounds|] == rounds;
      CompletedStaysWatched(Before(was), sweep, Plan(was, pass.start).None?, pass.fullAt, now.value);
  }

  /** Pass k is the last that completed a full sweep. */
  ghost predicate LastFull(passes: seq<Pass>, states: seq<Option<PassiveState>>, k: nat)
    requires |states| == |passes| + 1
  {
    FullPass(passes, states, k) && forall j | k < j < |passes| :: !FullPass(passes, states, j)
  }

  lemma {:induction false} LastFullPass(passes: seq<Pass>, states: seq<Option<PassiveState>>) returns (k: nat)
    requires Passes(passes, states) && states[|passes|].Some?
    ensures LastFull(passes, states, k) && states[|passes|].value.lastFullSweep == passes[k].fullAt
  {
    var n := |passes| - 1;
    assert Follows(states[n], passes[n], states[n + 1]);
    if FullPass(passes, states, n) {
      k := n;
    } else {
      PassesInit(passes, states);
      k := LastFullPass(passes[..n], states[..n + 1]);
      FullPassPrefix(passes, states, n);
    }
  }

  lemma FullPassPrefix(passes: seq<Pass>, states: seq<Option<PassiveState>>, n: nat)
    requires |states| == |passes| + 1 && n <= |passes|
    ensures forall k: nat | k < n :: FullPass(passes[..n], states[..n + 1], k) <==> FullPass(passes, states, k)
  {
  }

  lemma LastFullUnique(passes: seq<Pass>, states: seq<Option<PassiveState>>, j: nat, k: nat)
    requires |states| == |passes| + 1 && LastFull(passes, states, j) && LastFull(passes, states, k)
    ensures j == k
  {
  }

  /** When exactly a sweep is narrowed, after any sequence of runs: iff the test has
      watched channels and its last full sweep was dated less than ten minutes
      ago; then it listens on those channels. */
  lemma NarrowedExactly(passes: seq<Pass>, states: seq<Option<PassiveState>>, start: int)
    requires Passes(passes, states)
    ensures var s := states[|passes|];
            && (Plan(s, start).Some? <==>
                  s.Some? && s.value.channels != [] &&
                  exists k: nat | LastFull(passes, states, k) :: start - passes[k].fullAt < 600_000_000_000)
            && (Plan(s, start).Some? ==> Plan(s, start).value == s.value.channels)
  {
    if states[|passes|].Some? {
      var k := LastFullPass(passes, states);
      if j: nat :| LastFull(passes, states, j) && start - passes[j].fullAt < 600_000_000_000 {
        LastFullUnique(passes, states, j, k);
      }
    }
  }

  /** After any sequence of runs of a test: a narrowed sweep listens on the channel
      of every access point whose latest sighting in the whole history is at or
      after the last sweep's cutoff and names a channel, and a full sweep was
      completed less than ten minutes before it starts. */
  lemma NarrowedSweepMissesNoRecent(passes: seq<Pass>, states: seq<Option<PassiveState>>, start: int, bssid: string)
    requires Passes(passes, states) && Monotone(HeardRounds(passes))
    requires Plan(states[|passes|], start).Some?
    ensures HeardRounds(passes) != []
    ensures var rounds, channels := HeardRounds(passes), Plan(states[|passes|], start).value;
            var latest := Latest(rounds, bssid);
            latest.Some? && latest.value.lastSeenMs >= Cutoff(rounds[|rounds| - 1].now) && latest.value.info.channel > 0 ==>
            latest.value.info.channel in channels
    ensures exists k: nat | FullPass(passes, states, k) :: start - passes[k].fullAt < RETENTION_NS
  {
    PassesReach(passes, states);
    RetentionExact(HeardRounds(passes), bssid);
    var k := LastFullPass(passes, states);
  }

  class Agent {
    var wlanState: map<string, WlanPassiveState>

    ghost predicate Valid()
      reads this, wlanState.Values
    {
      && (forall t, u | t in wlanState && u in wlanState && t != u :: wlanState[t] != wlanState[u])
      && (forall t | t in wlanState :: wlanState[t].Valid() && Watched(wlanState[t].Contents()))
    }

    function StateOf(test: string): Option<PassiveState>
      reads this, wlanState.Values
    {
      if test in wlanState then Some(wlanState[test].Contents()) else None
    }

    constructor ()
      ensures Valid() && wlanState == map[]
    {
      wlanState := map[];
    }

    method ChooseChannels(test: string, start: int) returns (channels: Option<seq<nat>>)
      ensures channels == Plan(StateOf(test), start)
    {
      var fullSweep := test !in wlanState || |wlanState[test].channels| == 0 || start - wlanState[test].lastFullSweep >= RETENTION_NS;
      channels := if fullSweep then None else Some(wlanState[test].channels);
    }

    /** The test's state, or an empty one on its first run. */
    method StateFor(test: string) returns (state: WlanPassiveState)
      requires Valid()
      ensures state.Valid() && state.Contents() == Before(StateOf(test))
      ensures if test in wlanState then state == wlanState[test] else fresh(state)
    {
      if test in wlanState {
        state := wlanState[test];
      } else {
        state := new WlanPassiveState();
      }
    }

    /** The successful end of a run: the test's state, created on its first run,
        takes the sweep in. */
    method FinishSweep(test: string, sweep: Sweep, fullSweep: bool, fullAt: int) returns (roams: seq<RoamEvent>)
      requires Valid()
      modifies this, wlanState.Values
      ensures Valid() && test in wlanState
      ensures var was := Before(old(StateOf(test)));
              && Completed(was, sweep, fullSweep, fullAt, wlanState[test].Contents())
              && Emits(roams, was.networks, was.stations, sweep)
      ensures forall t | t != test && t in old(wlanState) :: t in wlanState && wlanState[t] == old(wlanState[t]) && unchanged(wlanState[t])
    {
      var state := StateFor(test);
      roams := CompleteSweep(state, sweep, fullSweep, fullAt);
      wlanState := wlanState[test := state];
    }

    /** One passive test run. `heard` is what the sweep returned, None when it
        failed. */
    method RunWlanPassive(test: string, start: int, heard: Option<Sweep>, fullAt: int)
      returns (channels: Option<seq<nat>>, roams: seq<RoamEvent>)
      requires Valid()
      modifies this, wlanState.Values
      ensures Valid()
      ensures channels == Plan(old(StateOf(test)), start)
      ensures Follows(old(StateOf(test)), Pass(start, heard, fullAt), StateOf(test))
      ensures heard.None? ==> wlanState == old(wlanState) && roams == []
      ensures heard.Some? ==>
                var was := Before(old(StateOf(test)));
                test in wlanState && Emits(roams, was.networks, was.stations, heard.value)
      ensures forall t | t != test && t in old(wlanState) :: t in wlanState && wlanState[t] == old(wlanState[t]) && unchanged(wlanState[t])
    {
      channels := ChooseChannels(test, start);
      roams := [];
      if heard.Some? {
        roams := FinishSweep(test, heard.value, channels.None?, fullAt);
      }
    }
  }
}
