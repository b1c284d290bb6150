/** Passive WLAN sensing: sightings kept for ten minutes after they were last
    heard, the roam and disconnect events this produces, and the channels the
    next sweep listens on. Times are Unix nanoseconds. */
module WlanRetention {
  import opened Sequences
  import opened Sorting

  const RETENTION_NS := 600_000_000_000
  const NS_PER_MS := 1_000_000

  /** time.Time.UnixMilli rounds down. */
  function UnixMilli(ns: int): int {
    ns / NS_PER_MS
  }

  function Cutoff(now: int): int {
    UnixMilli(now - RETENTION_NS)
  }

  /** An access point (key: BSSID) or a station (key: MAC), as one sweep heard it. */
  datatype Sighting<T> = Sighting(key: string, lastSeenMs: int, info: T)

  datatype NetworkInfo = NetworkInfo(ssid: string, channel: nat, rssi: int)
  datatype StationInfo = StationInfo(bssid: string, ssid: string, rssi: int)

  type Network = Sighting<NetworkInfo>
  type Station = Sighting<StationInfo>

  datatype RoamEvent = RoamEvent(mac: string, ssid: string, fromBssid: string, toBssid: string,
                                 fromChannel: nat, toChannel: nat, fromRssi: int, toRssi: int,
                                 roamTimeMs: int, detectedAtMs: int)

  datatype Sweep = Sweep(networks: seq<Network>, stations: seq<Station>, now: int)

  // ---------------------------------------------------------------------
  // The retained maps
  // ---------------------------------------------------------------------

  /** A sighting without a time is stamped with the sweep's. */
  function Stamp<T>(s: Sighting<T>, nowMs: int): Sighting<T> {
    if s.lastSeenMs == 0 then s.(lastSeenMs := nowMs) else s
  }

  function Added<T>(m: map<string, Sighting<T>>, heard: seq<Sighting<T>>, nowMs: int): map<string, Sighting<T>> {
    if heard == [] then m
    else
      var s := Stamp(heard[|heard| - 1], nowMs);
      Added(m, heard[..|heard| - 1], nowMs)[s.key := s]
  }

  function Evicted<T>(m: map<string, Sighting<T>>, cutoff: int): map<string, Sighting<T>> {
    map k | k in m && m[k].lastSeenMs >= cutoff :: m[k]
  }

  function Merged<T>(m: map<string, Sighting<T>>, heard: seq<Sighting<T>>, now: int): map<string, Sighting<T>> {
    Evicted(Added(m, heard, UnixMilli(now)), Cutoff(now))
  }

  ghost predicate Keyed<T(!new)>(m: map<string, Sighting<T>>) {
    forall k | k in m :: m[k].key == k
  }

  lemma {:induction false} AddedKeyed<T(!new)>(m: map<string, Sighting<T>>, heard: seq<Sighting<T>>, nowMs: int)
    requires Keyed(m)
    ensures Keyed(Added(m, heard, nowMs))
  {
    if heard != [] {
      AddedKeyed(m, heard[..|heard| - 1], nowMs);
    }
  }

  lemma AddedSnoc<T>(m: map<string, Sighting<T>>, heard: seq<Sighting<T>>, s: Sighting<T>, nowMs: int)
    ensures Added(m, heard + [s], nowMs) == Added(m, heard, nowMs)[s.key := Stamp(s, nowMs)]
  {
    assert (heard + [s])[..|heard|] == heard;
  }

  /** The map's values in strictly ascending key order. */
  ghost predicate ListsExactly<T(!new)>(list: seq<Sighting<T>>, m: map<string, Sighting<T>>) {
    && (forall i, j | 0 <= i < j < |list| :: StringLess(list[i].key, list[j].key))
    && (forall s :: s in list <==> s.key in m && m[s.key] == s)
  }

  /** That list is the same whatever order the map was walked in. */
  lemma {:induction false} ListUnique<T(!new)>(a: seq<Sighting<T>>, b: seq<Sighting<T>>, m: map<string, Sighting<T>>)
    requires ListsExactly(a, m) && ListsExactly(b, m)
    ensures a == b
    decreases |a|
  {
    if a == [] {
      NoneListed(b, m);
    } else {
      assert a[0] in a;
      assert a[0] in b;
      assert b[0] in b;
      assert b[0] in a;
      StringTrichotomy(a[0].key, b[0].key);
      var i :| 0 <= i < |a| && a[i] == b[0];
      var j :| 0 <= j < |b| && b[j] == a[0];
      if i > 0 && j > 0 {
        assert StringLess(a[0].key, a[i].key) && StringLess(b[0].key, b[j].key);
      }
      assert a[0] == b[0];
      TailLists(a, m);
      TailLists(b, m);
      ListUnique(a[1..], b[1..], m - {a[0].key});
    }
  }

  lemma NoneListed<T(!new)>(b: seq<Sighting<T>>, m: map<string, Sighting<T>>)
    requires ListsExactly([], m) && ListsExactly(b, m)
    ensures b == []
  {
    if b != [] {
      HeadIsMember(b);
    }
  }

  lemma HeadIsMember<X>(b: seq<X>)
    requires b != []
    ensures b[0] in b
  {
  }

  lemma TailLists<T(!new)>(a: seq<Sighting<T>>, m: map<string, Sighting<T>>)
    requires a != [] && ListsExactly(a, m)
    ensures ListsExactly(a[1..], m - {a[0].key})
  {
    var rest := m - {a[0].key};
    forall s
      ensures s in a[1..] <==> s.key in rest && rest[s.key] == s
    {
      if s in a[1..] {
        var i :| 0 <= i < |a[1..]| && a[1..][i] == s;
        assert a[i + 1] == s && s in a;
        StringTrichotomy(a[0].key, s.key);
      }
    }
  }

  // ---------------------------------------------------------------------
  // Events
  // ---------------------------------------------------------------------

  /** A missing BSSID reads as Go's zero value. */
  function ChannelOf(nets: map<string, Network>, bssid: string): nat {
    if bssid in nets then nets[bssid].info.channel else 0
  }

  function SsidFor(s: Station, nets: map<string, Network>): string {
    if s.info.ssid != "" then s.info.ssid
    else if s.info.bssid in nets then nets[s.info.bssid].info.ssid
    else ""
  }

  function RoamEventOf(mac: string, ssid: string, was: Station, next: Station, nets: map<string, Network>): RoamEvent {
    var gap := next.lastSeenMs - was.lastSeenMs;
    RoamEvent(mac, ssid, was.info.bssid, next.info.bssid, ChannelOf(nets, was.info.bssid), ChannelOf(nets, next.info.bssid),
              was.info.rssi, next.info.rssi, if gap < 0 then 0 else gap, next.lastSeenMs)
  }

  function DisconnectOf(s: Station, nets: map<string, Network>, nowMs: int): RoamEvent {
    RoamEvent(s.key, SsidFor(s, nets), s.info.bssid, "", ChannelOf(nets, s.info.bssid), 0, s.info.rssi, 0, 0, nowMs)
  }

  /** The station moved between two known access points. */
  predicate Moved(stas: map<string, Station>, s: Station) {
    s.key in stas && stas[s.key].info.bssid != "" && s.info.bssid != "" && stas[s.key].info.bssid != s.info.bssid
  }

  /** Roam events of one sweep in the order its stations are processed. */
  function Roams(stas: map<string, Station>, heard: seq<Station>, nets: map<string, Network>, nowMs: int): seq<RoamEvent> {
    if heard == [] then []
    else
      var init, s := heard[..|heard| - 1], Stamp(heard[|heard| - 1], nowMs);
      var before := Added(stas, init, nowMs);
      Roams(stas, init, nets, nowMs) +
      if Moved(before, s) then [RoamEventOf(s.key, SsidFor(s, nets), before[s.key], s, nets)] else []
  }

  predicate Leaving(s: Station, cutoff: int) {
    s.lastSeenMs < cutoff && s.info.bssid != ""
  }

  /** One disconnect for every associated station among `macs` that ages out. */
  function DisconnectsAmong(stas: map<string, Station>, macs: set<string>, nets: map<string, Network>, now: int): set<RoamEvent> {
    set mac | mac in macs && mac in stas && Leaving(stas[mac], Cutoff(now)) :: DisconnectOf(stas[mac], nets, UnixMilli(now))
  }

  function Disconnects(stas: map<string, Station>, nets: map<string, Network>, now: int): set<RoamEvent> {
    DisconnectsAmong(stas, stas.Keys, nets, now)
  }

  predicate DetectedLe(a: RoamEvent, b: RoamEvent) {
    a.detectedAtMs <= b.detectedAtMs
  }

  /** What one sweep emits: its roams and disconnects, by time. */
  ghost predicate Emits(events: seq<RoamEvent>, nets: map<string, Network>, stas: map<string, Station>, sweep: Sweep) {
    var nowMs := UnixMilli(sweep.now);
    var heardNets, heardStas := Added(nets, sweep.networks, nowMs), Added(stas, sweep.stations, nowMs);
    && multiset(events) == multiset(Roams(stas, sweep.stations, heardNets, nowMs)) +
                           multiset(Disconnects(heardStas, Merged(nets, sweep.networks, sweep.now), sweep.now))
    && SortedBy(events, DetectedLe)
  }

  // ---------------------------------------------------------------------
  // Walking a map in any order while deleting from it
  // ---------------------------------------------------------------------

  /** The walk over `full` with `todo` still ahead: the map has lost the aged
      entries already met, the list holds the others already met. */
  ghost predicate Swept<T(!new)>(list: seq<Sighting<T>>, current: map<string, Sighting<T>>,
                                 full: map<string, Sighting<T>>, todo: set<string>, cutoff: int) {
    && current == (map k | k in full && (k in todo || full[k].lastSeenMs >= cutoff) :: full[k])
    && (forall i, j | 0 <= i < j < |list| :: list[i].key != list[j].key)
    && (forall s :: s in list <==> s.key in full && s.key !in todo && full[s.key] == s && s.lastSeenMs >= cutoff)
  }

  lemma SweptStep<T(!new)>(list: seq<Sighting<T>>, current: map<string, Sighting<T>>,
                           full: map<string, Sighting<T>>, todo: set<string>, cutoff: int, k: string)
    requires Keyed(full) && todo <= full.Keys && k in todo && Swept(list, current, full, todo, cutoff)
    ensures k in current && current[k] == full[k]
    ensures if full[k].lastSeenMs < cutoff then Swept(list, current - {k}, full, todo - {k}, cutoff)
            else Swept(list + [full[k]], current, full, todo - {k}, cutoff)
  {
    var s := full[k];
    if s.lastSeenMs >= cutoff {
      var longer := list + [s];
      forall i | 0 <= i < |list|
        ensures list[i].key != k
      {
        assert list[i] in list;
      }
      forall x
        ensures x in longer <==> x.key in full && x.key !in todo - {k} && full[x.key] == x && x.lastSeenMs >= cutoff
      {
        assert x in longer <==> x in list || x == s;
      }
    }
  }

  method SortByKey<T(!new)>(list: seq<Sighting<T>>, ghost current: map<string, Sighting<T>>, ghost full: map<string, Sighting<T>>, ghost cutoff: int)
    returns (sorted: seq<Sighting<T>>)
    requires Swept(list, current, full, {}, cutoff)
    ensures current == Evicted(full, cutoff) && ListsExactly(sorted, current)
  {
    StringLeIsTotal();
    var le := (a: Sighting<T>, b: Sighting<T>) => StringLe(a.key, b.key);
    assert TotalPreorder(le);
    sorted := SortSlice(list, le);
    SortedStrictly(list, sorted);
    forall s
      ensures s in sorted <==> s in list
    {
      assert s in sorted <==> s in multiset(sorted);
      assert s in list <==> s in multiset(list);
    }
  }

  lemma SortedStrictly<T(!new)>(list: seq<Sighting<T>>, sorted: seq<Sighting<T>>)
    requires multiset(list) == multiset(sorted)
    requires forall i, j | 0 <= i < j < |list| :: list[i].key != list[j].key
    requires forall i, j | 0 <= i < j < |sorted| :: StringLe(sorted[i].key, sorted[j].key)
    ensures forall i, j | 0 <= i < j < |sorted| :: StringLess(sorted[i].key, sorted[j].key)
  {
    forall i, j | 0 <= i < j < |sorted|
      ensures StringLess(sorted[i].key, sorted[j].key)
    {
      StringTrichotomy(sorted[i].key, sorted[j].key);
      DistinctKeysPermute(list, sorted, i, j);
    }
  }

  lemma DistinctKeysPermute<T>(list: seq<Sighting<T>>, sorted: seq<Sighting<T>>, i: nat, j: nat)
    requires multiset(list) == multiset(sorted) && i < j < |sorted|
    requires forall p, q | 0 <= p < q < |list| :: list[p].key != list[q].key
    ensures sorted[i].key != sorted[j].key
  {
    var x, y := sorted[i], sorted[j];
    assert x in multiset(sorted) && y in multiset(sorted);
    assert x in list && y in list;
    if x == y {
      CountTwo(sorted, i, j);
      TwoPlaces(list, x);
    }
  }

  lemma CountTwo<X>(s: seq<X>, i: nat, j: nat)
    requires i < j < |s| && s[i] == s[j]
    ensures multiset(s)[s[i]] >= 2
  {
    assert s == s[..j] + s[j..];
    assert s[..j][i] in multiset(s[..j]) && s[j..][0] in multiset(s[j..]);
  }

  lemma TwoPlaces<X>(s: seq<X>, x: X)
    requires multiset(s)[x] >= 2
    ensures exists p, q | 0 <= p < q < |s| :: s[p] == x && s[q] == x
  {
    assert x in multiset(s);
    var p :| 0 <= p < |s| && s[p] == x;
    assert s == s[..p] + [s[p]] + s[p + 1..];
    assert multiset(s) == multiset(s[..p]) + multiset{x} + multiset(s[p + 1..]);
    if x in s[..p] {
      var q :| 0 <= q < p && s[..p][q] == x;
      assert s[q] == x;
    } else {
      assert x in multiset(s[p + 1..]);
      var q :| 0 <= q < |s| - p - 1 && s[p + 1..][q] == x;
      assert s[p + 1 + q] == x;
    }
  }

  /** The first of the two walks: drop what is older than the cutoff, list the rest. */
  method SweepOut<T(!new)>(full: map<string, Sighting<T>>, cutoff: int) returns (kept: map<string, Sighting<T>>, list: seq<Sighting<T>>)
    requires Keyed(full)
    ensures kept == Evicted(full, cutoff) && ListsExactly(list, kept)
  {
    var todo := full.Keys;
    kept, list := full, [];
    while todo != {}
      invariant todo <= full.Keys
      invariant Swept(list, kept, full, todo, cutoff)
    {
      var k :| k in todo;
      SweptStep(list, kept, full, todo, cutoff, k);
      todo := todo - {k};
      if kept[k].lastSeenMs < cutoff {
        kept := kept - {k};
        continue;
      }
      list := list + [kept[k]];
    }
    list := SortByKey(list, kept, full, cutoff);
  }

  /** The events so far: the moves plus one disconnect per aged station met. */
  ghost predicate Gathered(roams: seq<RoamEvent>, moved: seq<RoamEvent>, stas: map<string, Station>, met: set<string>,
                           nets: map<string, Network>, now: int) {
    multiset(roams) == multiset(moved) + multiset(DisconnectsAmong(stas, met, nets, now))
  }

  lemma GatherStep(roams: seq<RoamEvent>, moved: seq<RoamEvent>, stas: map<string, Station>, met: set<string>,
                   nets: map<string, Network>, now: int, mac: string)
    requires Keyed(stas) && mac in stas && mac !in met && Gathered(roams, moved, stas, met, nets, now)
    ensures var e := DisconnectOf(stas[mac], nets, UnixMilli(now));
            Gathered(if Leaving(stas[mac], Cutoff(now)) then roams + [e] else roams, moved, stas, met + {mac}, nets, now)
  {
    var e := DisconnectOf(stas[mac], nets, UnixMilli(now));
    var before := DisconnectsAmong(stas, met, nets, now);
    var after := DisconnectsAmong(stas, met + {mac}, nets, now);
    assert e !in before;
    if Leaving(stas[mac], Cutoff(now)) {
      assert after == before + {e};
      assert multiset(roams + [e]) == multiset(roams) + multiset{e};
    } else {
      assert after == before;
    }
  }

  /** The second walk also reports each associated station it drops. */
  ghost predicate Dropping(kept: map<string, Station>, list: seq<Station>, roams: seq<RoamEvent>, full: map<string, Station>,
                           nets: map<string, Network>, now: int, moved: seq<RoamEvent>, todo: set<string>) {
    && Swept(list, kept, full, todo, Cutoff(now))
    && Gathered(roams, moved, full, full.Keys - todo, nets, now)
  }

  method DropStation(mac: string, kept0: map<string, Station>, list0: seq<Station>, roams0: seq<RoamEvent>, ghost full: map<string, Station>,
                     nets: map<string, Network>, now: int, ghost moved: seq<RoamEvent>, ghost todo: set<string>)
    returns (kept: map<string, Station>, list: seq<Station>, roams: seq<RoamEvent>)
    requires Keyed(full) && todo <= full.Keys && mac in todo
    requires Dropping(kept0, list0, roams0, full, nets, now, moved, todo)
    ensures Dropping(kept, list, roams, full, nets, now, moved, todo - {mac})
  {
    SweptStep(list0, kept0, full, todo, Cutoff(now), mac);
    GatherStep(roams0, moved, full, full.Keys - todo, nets, now, mac);
    assert full.Keys - todo + {mac} == full.Keys - (todo - {mac});
    kept, list, roams := kept0, list0, roams0;
    var s := kept[mac];
    if s.lastSeenMs < Cutoff(now) {
      kept := kept - {mac};
      if s.info.bssid != "" {
        roams := roams + [DisconnectOf(s, nets, UnixMilli(now))];
      }
      return;
    }
    list := list + [s];
  }

  method DropStations(full: map<string, Station>, nets: map<string, Network>, now: int, moved: seq<RoamEvent>)
    returns (kept: map<string, Station>, list: seq<Station>, roams: seq<RoamEvent>)
    requires Keyed(full)
    ensures kept == Evicted(full, Cutoff(now)) && ListsExactly(list, kept)
    ensures Gathered(roams, moved, full, full.Keys, nets, now)
  {
    var todo := full.Keys;
    kept, list, roams := full, [], moved;
    assert full.Keys - todo == {} && DisconnectsAmong(full, {}, nets, now) == {};
    while todo != {}
      invariant todo <= full.Keys
      invariant Dropping(kept, list, roams, full, nets, now, moved, todo)
    {
      var mac :| mac in todo;
      kept, list, roams := DropStation(mac, kept, list, roams, full, nets, now, moved, todo);
      todo := todo - {mac};
    }
    assert full.Keys - {} == full.Keys;
    list := SortByKey(list, kept, full, Cutoff(now));
  }

  datatype PassiveState = PassiveState(channels: seq<nat>, lastFullSweep: int,
                                       networks: map<string, Network>, stations: map<string, Station>)

  class WlanPassiveState {
    var channels: seq<nat>
    var lastFullSweep: int
    var networks: map<string, Network>
    var stations: map<string, Station>

    function Contents(): PassiveState
      reads this
    {
      PassiveState(channels, lastFullSweep, networks, stations)
    }

    ghost predicate Valid()
      reads this
    {
      Keyed(networks) && Keyed(stations)
    }

    constructor ()
      ensures Valid() && Contents() == PassiveState([], 0, map[], map[])
    {
      channels, lastFullSweep, networks, stations := [], 0, map[], map[];
    }

    method MergeRetained(sweep: Sweep) returns (nets: seq<Network>, stas: seq<Station>, roams: seq<RoamEvent>)
      requires Valid()
      modifies this`networks, this`stations
      ensures Valid()
      ensures networks == Merged(old(networks), sweep.networks, sweep.now)
      ensures stations == Merged(old(stations), sweep.stations, sweep.now)
      ensures ListsExactly(nets, networks) && ListsExactly(stas, stations)
      ensures Emits(roams, old(networks), old(stations), sweep)
    {
      var nowMs, cutoff := UnixMilli(sweep.now), Cutoff(sweep.now);
      HearNetworks(sweep.networks, nowMs);
      var moved := HearStations(sweep.stations, nowMs);
      AddedKeyed(old(networks), sweep.networks, nowMs);
      AddedKeyed(old(stations), sweep.stations, nowMs);
      networks, nets := SweepOut(networks, cutoff);
      stations, stas, roams := DropStations(stations, networks, sweep.now, moved);
      roams := SortSlice(roams, DetectedLe);
    }

    method HearNetworks(heard: seq<Network>, nowMs: int)
      modifies this`networks
      ensures networks == Added(old(networks), heard, nowMs)
    {
      for k := 0 to |heard|
        invariant networks == Added(old(networks), heard[..k], nowMs)
      {
        assert heard[..k + 1] == heard[..k] + [heard[k]];
        AddedSnoc(old(networks), heard[..k], heard[k], nowMs);
        var n := heard[k];
        if n.lastSeenMs == 0 {
          n := n.(lastSeenMs := nowMs);
        }
        networks := networks[n.key := n];
      }
      assert heard[..|heard|] == heard;
    }

    method HearStations(heard: seq<Station>, nowMs: int) returns (roams: seq<RoamEvent>)
      modifies this`stations
      ensures stations == Added(old(stations), heard, nowMs)
      ensures roams == Roams(old(stations), heard, networks, nowMs)
    {
      roams := [];
      for k := 0 to |heard|
        invariant stations == Added(old(stations), heard[..k], nowMs)
        invariant roams == Roams(old(stations), heard[..k], networks, nowMs)
      {
        assert heard[..k + 1][..k] == heard[..k];
        var s := heard[k];
        if s.lastSeenMs == 0 {
          s := s.(lastSeenMs := nowMs);
        }
        if Moved(stations, s) {
          roams := roams + [RoamEventOf(s.key, SsidFor(s, networks), stations[s.key], s, networks)];
        }
        stations := stations[s.key := s];
      }
      assert heard[..|heard|] == heard;
    }
  }

  // ---------------------------------------------------------------------
  // Retention refines history
  // ---------------------------------------------------------------------

  /** One sweep's sightings of one kind. */
  datatype Round<T> = Round(heard: seq<Sighting<T>>, now: int)

  function Retained<T>(rounds: seq<Round<T>>): map<string, Sighting<T>> {
    if rounds == [] then map[]
    else
      var last := rounds[|rounds| - 1];
      Merged(Retained(rounds[..|rounds| - 1]), last.heard, last.now)
  }

  function LastHeard<T>(heard: seq<Sighting<T>>, key: string, nowMs: int): Option<Sighting<T>> {
    if heard == [] then None
    else if heard[|heard| - 1].key == key then Some(Stamp(heard[|heard| - 1], nowMs))
    else LastHeard(heard[..|heard| - 1], key, nowMs)
  }

  /** The most recent sighting of a key in the whole history. */
  function Latest<T>(rounds: seq<Round<T>>, key: string): Option<Sighting<T>> {
    if rounds == [] then None
    else
      var last := rounds[|rounds| - 1];
      var now := LastHeard(last.heard, key, UnixMilli(last.now));
      if now.Some? then now else Latest(rounds[..|rounds| - 1], key)
  }

  ghost predicate Monotone<T>(rounds: seq<Round<T>>) {
    forall i, j | 0 <= i < j < |rounds| :: rounds[i].now <= rounds[j].now
  }

  lemma {:induction false} AddedExact<T>(m: map<string, Sighting<T>>, heard: seq<Sighting<T>>, nowMs: int, key: string)
    ensures match LastHeard(heard, key, nowMs)
            case Some(s) => key in Added(m, heard, nowMs) && Added(m, heard, nowMs)[key] == s
            case None => (key in Added(m, heard, nowMs) <==> key in m) && (key in m ==> Added(m, heard, nowMs)[key] == m[key])
  {
    if heard != [] {
      AddedExact(m, heard[..|heard| - 1], nowMs, key);
    }
  }

  /** After any run of sweeps with non-decreasing time the map holds exactly the
      keys whose most recent sighting is at or after the cutoff, with that
      sighting as value. */
  lemma {:induction false} RetentionExact<T>(rounds: seq<Round<T>>, key: string)
    requires rounds != [] && Monotone(rounds)
    ensures var m, latest := Retained(rounds), Latest(rounds, key);
            && (key in m <==> latest.Some? && latest.value.lastSeenMs >= Cutoff(rounds[|rounds| - 1].now))
            && (key in m ==> m[key] == latest.value)
  {
    var n := |rounds| - 1;
    var last := rounds[n];
    AddedExact(Retained(rounds[..n]), last.heard, UnixMilli(last.now), key);
    if n > 0 {
      RetentionExact(rounds[..n], key);
      assert rounds[..n][n - 1].now <= last.now;
      CutoffMonotone(rounds[n - 1].now, last.now);
    } else {
      assert rounds[..0] == [];
    }
  }

  lemma CutoffMonotone(a: int, b: int)
    requires a <= b
    ensures Cutoff(a) <= Cutoff(b)
  {
  }

  // ---------------------------------------------------------------------
  // Event conservation and the roam chain
  // ---------------------------------------------------------------------

  /** The events of one station, or only its disconnects, in emission order. */
  function EventsOf(events: seq<RoamEvent>, mac: string, disconnectsOnly: bool): seq<RoamEvent> {
    if events == [] then []
    else
      var e := events[|events| - 1];
      EventsOf(events[..|events| - 1], mac, disconnectsOnly) +
      if e.mac == mac && (disconnectsOnly ==> e.toBssid == "") then [e] else []
  }

  lemma {:induction false} EventsOfBag(events: seq<RoamEvent>, mac: string, only: bool, e: RoamEvent)
    ensures multiset(EventsOf(events, mac, only))[e] ==
            if e.mac == mac && (only ==> e.toBssid == "") then multiset(events)[e] else 0
  {
    if events != [] {
      var init, last := events[..|events| - 1], events[|events| - 1];
      EventsOfBag(init, mac, only, e);
      assert events == init + [last];
      EventsOfSnoc(init, last, mac, only);
      BagSnoc(init, last, e);
      BagSnoc(EventsOf(init, mac, only), last, e);
    }
  }

  lemma BagSnoc(es: seq<RoamEvent>, x: RoamEvent, e: RoamEvent)
    ensures multiset(es + [x])[e] == multiset(es)[e] + if x == e then 1 else 0
  {
  }

  /** The bag picked out of a sweep's roams and disconnects. */
  lemma PickedBag(events: seq<RoamEvent>, roams: seq<RoamEvent>, gone: set<RoamEvent>, mac: string, only: bool, e: RoamEvent)
    requires multiset(events) == multiset(roams) + multiset(gone)
    ensures multiset(EventsOf(events, mac, only))[e] ==
            if e.mac == mac && (only ==> e.toBssid == "") then multiset(roams)[e] + (if e in gone then 1 else 0) else 0
  {
    EventsOfBag(events, mac, only, e);
  }

  lemma SortedSnoc(es: seq<RoamEvent>, e: RoamEvent)
    requires SortedBy(es, DetectedLe) && forall i | 0 <= i < |es| :: es[i].detectedAtMs <= e.detectedAtMs
    ensures SortedBy(es + [e], DetectedLe)
  {
  }

  lemma {:induction false} EventsOfSorted(events: seq<RoamEvent>, mac: string, only: bool)
    requires SortedBy(events, DetectedLe)
    ensures var es := EventsOf(events, mac, only);
            && SortedBy(es, DetectedLe)
            && forall i | 0 <= i < |es| :: events != [] && es[i].detectedAtMs <= events[|events| - 1].detectedAtMs
  {
    if events != [] {
      var n := |events| - 1;
      EventsOfSorted(events[..n], mac, only);
      assert n > 0 ==> DetectedLe(events[n - 1], events[n]);
      SortedSnoc(EventsOf(events[..n], mac, only), events[n]);
    }
  }

  /** A sorted arrangement of at most two events with different times is unique. */
  lemma SmallSort(a: seq<RoamEvent>, t: seq<RoamEvent>)
    requires multiset(a) == multiset(t) && |t| <= 2 && SortedBy(a, DetectedLe)
    requires |t| == 2 ==> t[0].detectedAtMs < t[1].detectedAtMs
    ensures a == t
  {
    assert |a| == |multiset(a)| == |multiset(t)| == |t|;
    if |t| == 1 {
      assert a == [a[0]] && t == [t[0]];
      assert t[0] in multiset(a);
    } else if |t| == 2 {
      assert a == [a[0], a[1]] && t == [t[0], t[1]];
      assert t[0] in multiset(a) && t[1] in multiset(a);
      assert DetectedLe(a[0], a[1]);
    }
  }

  lemma {:induction false} RoamsHaveDestinations(stas: map<string, Station>, heard: seq<Station>, nets: map<string, Network>, nowMs: int)
    ensures forall e | e in Roams(stas, heard, nets, nowMs) :: e.toBssid != ""
  {
    if heard != [] {
      RoamsHaveDestinations(stas, heard[..|heard| - 1], nets, nowMs);
    }
  }

  /** The stations known once a sweep has been heard, and the networks known
      when its disconnects are reported. */
  function Heard(stas: map<string, Station>, sweep: Sweep): map<string, Station> {
    Added(stas, sweep.stations, UnixMilli(sweep.now))
  }

  function Disconnected(nets: map<string, Network>, stas: map<string, Station>, sweep: Sweep, mac: string): seq<RoamEvent> {
    var heard := Heard(stas, sweep);
    if mac in heard && Leaving(heard[mac], Cutoff(sweep.now))
    then [DisconnectOf(heard[mac], Merged(nets, sweep.networks, sweep.now), UnixMilli(sweep.now))] else []
  }

  lemma DisconnectsOfMac(nets: map<string, Network>, stas: map<string, Station>, sweep: Sweep, mac: string, e: RoamEvent)
    requires Keyed(stas) && e.mac == mac
    ensures e in Disconnects(Heard(stas, sweep), Merged(nets, sweep.networks, sweep.now), sweep.now) <==>
            e in Disconnected(nets, stas, sweep, mac)
  {
    AddedKeyed(stas, sweep.stations, UnixMilli(sweep.now));
  }

  /** Conservation: a station that leaves the map with an associated BSSID is
      reported by exactly one disconnect, and nothing else is. */
  lemma OneDisconnectPerLeaver(events: seq<RoamEvent>, nets: map<string, Network>, stas: map<string, Station>, sweep: Sweep, mac: string)
    requires Keyed(stas) && Emits(events, nets, stas, sweep)
    ensures EventsOf(events, mac, true) == Disconnected(nets, stas, sweep, mac)
    ensures |EventsOf(events, mac, true)| == 1 <==>
            mac in Heard(stas, sweep) && mac !in Merged(stas, sweep.stations, sweep.now) && Heard(stas, sweep)[mac].info.bssid != ""
  {
    var nowMs := UnixMilli(sweep.now);
    var roams := Roams(stas, sweep.stations, Added(nets, sweep.networks, nowMs), nowMs);
    var gone := Disconnects(Heard(stas, sweep), Merged(nets, sweep.networks, sweep.now), sweep.now);
    var t := Disconnected(nets, stas, sweep, mac);
    RoamsHaveDestinations(stas, sweep.stations, Added(nets, sweep.networks, nowMs), nowMs);
    forall e: RoamEvent | e.mac == mac
      ensures e in gone <==> e in t
    {
      DisconnectsOfMac(nets, stas, sweep, mac, e);
    }
    AddedKeyed(stas, sweep.stations, nowMs);
    OnlyDisconnects(events, roams, gone, t, mac);
  }

  lemma OnlyDisconnects(events: seq<RoamEvent>, roams: seq<RoamEvent>, gone: set<RoamEvent>, t: seq<RoamEvent>, mac: string)
    requires multiset(events) == multiset(roams) + multiset(gone) && SortedBy(events, DetectedLe)
    requires forall e | e in roams :: e.toBssid != ""
    requires |t| <= 1 && forall e | e in t :: e.mac == mac && e.toBssid == ""
    requires forall e: RoamEvent | e.mac == mac :: e in gone <==> e in t
    ensures EventsOf(events, mac, true) == t
  {
    var picked := EventsOf(events, mac, true);
    forall e
      ensures multiset(picked)[e] == multiset(t)[e]
    {
      PickedBag(events, roams, gone, mac, true, e);
      assert e in multiset(roams) <==> e in roams;
      OnceAtMost(t, e);
      if e.mac == mac && e.toBssid == "" {
        OnlyIn(gone, t, mac, e);
      }
    }
    assert multiset(picked) == multiset(t);
    EventsOfSorted(events, mac, true);
    SmallSort(picked, t);
  }

  lemma OnlyIn(gone: set<RoamEvent>, t: seq<RoamEvent>, mac: string, e: RoamEvent)
    requires e.mac == mac && forall x: RoamEvent | x.mac == mac :: x in gone <==> x in t
    ensures e in gone <==> e in t
  {
  }

  lemma OnceAtMost(t: seq<RoamEvent>, e: RoamEvent)
    requires |t| <= 1
    ensures multiset(t)[e] == if e in t then 1 else 0
  {
    if t != [] {
      assert t == [t[0]];
    }
  }

  /** The probe reports each station once per sweep. */
  ghost predicate DistinctStations(sweep: Sweep) {
    forall i, j | 0 <= i < j < |sweep.stations| :: sweep.stations[i].key != sweep.stations[j].key
  }

  /** The roam a sweep reports for a station, if any. */
  function Roamed(nets: map<string, Network>, stas: map<string, Station>, heard: seq<Station>, nowMs: int, mac: string): seq<RoamEvent> {
    match LastHeard(heard, mac, nowMs)
    case None => []
    case Some(s) => if Moved(stas, s) then [RoamEventOf(s.key, SsidFor(s, nets), stas[s.key], s, nets)] else []
  }

  lemma {:induction false} LastHeardKey<T>(heard: seq<Sighting<T>>, key: string, nowMs: int)
    ensures LastHeard(heard, key, nowMs).Some? ==> LastHeard(heard, key, nowMs).value.key == key
    ensures LastHeard(heard, key, nowMs).Some? ==> exists i | 0 <= i < |heard| ::
              heard[i].key == key && heard[i].info == LastHeard(heard, key, nowMs).value.info
    ensures LastHeard(heard, key, nowMs).None? ==> forall i | 0 <= i < |heard| :: heard[i].key != key
  {
    if heard != [] {
      var n := |heard| - 1;
      LastHeardKey(heard[..n], key, nowMs);
      if heard[n].key != key && LastHeard(heard[..n], key, nowMs).Some? {
        var i :| 0 <= i < n && heard[..n][i].key == key && heard[..n][i].info == LastHeard(heard[..n], key, nowMs).value.info;
        assert heard[i].key == key;
      } else if heard[n].key == key {
        assert heard[n].info == LastHeard(heard, key, nowMs).value.info;
      }
      if heard[n].key != key && LastHeard(heard[..n], key, nowMs).None? {
        assert forall i | 0 <= i < n :: heard[..n][i] == heard[i];
      }
    }
  }

  lemma EventsOfSnoc(events: seq<RoamEvent>, e: RoamEvent, mac: string, only: bool)
    ensures EventsOf(events + [e], mac, only) ==
            if e.mac == mac && (only ==> e.toBssid == "") then EventsOf(events, mac, only) + [e] else EventsOf(events, mac, only)
  {
    assert (events + [e])[..|events|] == events;
    assert EventsOf(events, mac, only) + [] == EventsOf(events, mac, only);
  }

  lemma RoamsSnoc(nets: map<string, Network>, stas: map<string, Station>, init: seq<Station>, s: Station, nowMs: int)
    requires forall i | 0 <= i < |init| :: init[i].key != s.key
    ensures var x := Stamp(s, nowMs);
            Roams(stas, init + [s], nets, nowMs) ==
            Roams(stas, init, nets, nowMs) + if Moved(stas, x) then [RoamEventOf(x.key, SsidFor(x, nets), stas[x.key], x, nets)] else []
  {
    assert (init + [s])[..|init|] == init;
    AddedExact(stas, init, nowMs, s.key);
    LastHeardKey(init, s.key, nowMs);
  }

  lemma {:induction false} RoamsOfMac(nets: map<string, Network>, stas: map<string, Station>, heard: seq<Station>, nowMs: int, mac: string)
    requires forall i, j | 0 <= i < j < |heard| :: heard[i].key != heard[j].key
    ensures EventsOf(Roams(stas, heard, nets, nowMs), mac, false) == Roamed(nets, stas, heard, nowMs, mac)
  {
    if heard != [] {
      var n := |heard| - 1;
      var init, s := heard[..n], heard[n];
      assert heard == init + [s];
      RoamsOfMac(nets, stas, init, nowMs, mac);
      RoamsSnoc(nets, stas, init, s, nowMs);
      LastHeardKey(init, s.key, nowMs);
      RoamedSnoc(nets, stas, init, s, nowMs, mac, Roams(stas, init, nets, nowMs));
    }
  }

  lemma RoamedSnoc(nets: map<string, Network>, stas: map<string, Station>, init: seq<Station>, s: Station, nowMs: int, mac: string,
                   r: seq<RoamEvent>)
    requires LastHeard(init, s.key, nowMs).None?
    requires EventsOf(r, mac, false) == Roamed(nets, stas, init, nowMs, mac)
    ensures var x := Stamp(s, nowMs);
            var added := if Moved(stas, x) then [RoamEventOf(x.key, SsidFor(x, nets), stas[x.key], x, nets)] else [];
            EventsOf(r + added, mac, false) == Roamed(nets, stas, init + [s], nowMs, mac)
  {
    var x := Stamp(s, nowMs);
    LastHeardSnoc(init, s, mac, nowMs);
    if Moved(stas, x) {
      EventsOfSnoc(r, RoamEventOf(x.key, SsidFor(x, nets), stas[x.key], x, nets), mac, false);
    } else {
      assert r + [] == r;
    }
  }

  lemma LastHeardSnoc<T>(init: seq<Sighting<T>>, s: Sighting<T>, key: string, nowMs: int)
    ensures LastHeard(init + [s], key, nowMs) == if s.key == key then Some(Stamp(s, nowMs)) else LastHeard(init, key, nowMs)
  {
    assert (init + [s])[..|init|] == init;
  }

  /** What a sweep adds to a station's trail: a roam, a disconnect, both or nothing. */
  function SweepAdds(nets: map<string, Network>, stas: map<string, Station>, sweep: Sweep, mac: string): seq<RoamEvent> {
    Roamed(Added(nets, sweep.networks, UnixMilli(sweep.now)), stas, sweep.stations, UnixMilli(sweep.now), mac) +
    Disconnected(nets, stas, sweep, mac)
  }

  /** What one sweep emits about one station, in order: at most one roam, then
      at most one disconnect, however ties elsewhere were sorted. */
  lemma SweepTrail(events: seq<RoamEvent>, nets: map<string, Network>, stas: map<string, Station>, sweep: Sweep, mac: string)
    requires Keyed(stas) && Emits(events, nets, stas, sweep) && DistinctStations(sweep)
    ensures EventsOf(events, mac, false) == SweepAdds(nets, stas, sweep, mac)
  {
    var nowMs := UnixMilli(sweep.now);
    var heardNets := Added(nets, sweep.networks, nowMs);
    var roams := Roams(stas, sweep.stations, heardNets, nowMs);
    var gone := Disconnects(Heard(stas, sweep), Merged(nets, sweep.networks, sweep.now), sweep.now);
    var r, d := Roamed(heardNets, stas, sweep.stations, nowMs, mac), Disconnected(nets, stas, sweep, mac);
    RoamsOfMac(heardNets, stas, sweep.stations, nowMs, mac);
    forall e: RoamEvent | e.mac == mac
      ensures e in gone <==> e in d
    {
      DisconnectsOfMac(nets, stas, sweep, mac, e);
    }
    AddedKeyed(stas, sweep.stations, nowMs);
    AddedExact(stas, sweep.stations, nowMs, mac);
    LastHeardKey(sweep.stations, mac, nowMs);
    CutoffBeforeNow(sweep.now);
    RoamThenDisconnect(events, roams, gone, r, d, mac);
  }

  lemma RoamThenDisconnect(events: seq<RoamEvent>, roams: seq<RoamEvent>, gone: set<RoamEvent>,
                           r: seq<RoamEvent>, d: seq<RoamEvent>, mac: string)
    requires multiset(events) == multiset(roams) + multiset(gone) && SortedBy(events, DetectedLe)
    requires EventsOf(roams, mac, false) == r && |r| <= 1
    requires |d| <= 1 && forall e | e in d :: e.mac == mac
    requires forall e: RoamEvent | e.mac == mac :: e in gone <==> e in d
    requires r != [] && d != [] ==> r[0].detectedAtMs < d[0].detectedAtMs
    ensures EventsOf(events, mac, false) == r + d
  {
    var picked := EventsOf(events, mac, false);
    forall e
      ensures multiset(picked)[e] == multiset(r + d)[e]
    {
      PickedCount(events, roams, gone, r, d, mac, e);
    }
    assert multiset(picked) == multiset(r + d);
    EventsOfSorted(events, mac, false);
    SmallSort(picked, r + d);
  }

  lemma PickedCount(events: seq<RoamEvent>, roams: seq<RoamEvent>, gone: set<RoamEvent>,
                    r: seq<RoamEvent>, d: seq<RoamEvent>, mac: string, e: RoamEvent)
    requires multiset(events) == multiset(roams) + multiset(gone)
    requires EventsOf(roams, mac, false) == r && |d| <= 1
    requires e in d ==> e.mac == mac
    requires e.mac == mac ==> (e in gone <==> e in d)
    ensures multiset(EventsOf(events, mac, false))[e] == multiset(r + d)[e]
  {
    PickedBag(events, roams, gone, mac, false, e);
    EventsOfBag(roams, mac, false, e);
    OnceAtMost(d, e);
    assert multiset(r + d)[e] == multiset(r)[e] + multiset(d)[e];
  }

  lemma CutoffBeforeNow(now: int)
    ensures Cutoff(now) < UnixMilli(now)
  {
  }

  function NetRounds(sweeps: seq<Sweep>): seq<Round<NetworkInfo>> {
    seq(|sweeps|, i requires 0 <= i < |sweeps| => Round(sweeps[i].networks, sweeps[i].now))
  }

  function StaRounds(sweeps: seq<Sweep>): seq<Round<StationInfo>> {
    seq(|sweeps|, i requires 0 <= i < |sweeps| => Round(sweeps[i].stations, sweeps[i].now))
  }

  /** A run: what each sweep emitted, starting from empty maps. */
  ghost predicate Emitted(sweeps: seq<Sweep>, emitted: seq<seq<RoamEvent>>) {
    && |emitted| == |sweeps|
    && forall k | 0 <= k < |sweeps| ::
         Emits(emitted[k], Retained(NetRounds(sweeps[..k])), Retained(StaRounds(sweeps[..k])), sweeps[k])
  }

  /** All events of one station over a run. */
  function Trail(emitted: seq<seq<RoamEvent>>, mac: string): seq<RoamEvent> {
    if emitted == [] then []
    else Trail(emitted[..|emitted| - 1], mac) + EventsOf(emitted[|emitted| - 1], mac, false)
  }

  /** Each event starts where the previous one ended, unless that was a disconnect. */
  ghost predicate Chained(es: seq<RoamEvent>) {
    forall i | 0 < i < |es| :: es[i - 1].toBssid == "" || es[i].fromBssid == es[i - 1].toBssid
  }

  ghost predicate NeverBlank(sweeps: seq<Sweep>, mac: string) {
    forall k, i | 0 <= k < |sweeps| && 0 <= i < |sweeps[k].stations| && sweeps[k].stations[i].key == mac ::
      sweeps[k].stations[i].info.bssid != ""
  }

  /** The map places the station where its last event left it, if that was a roam. */
  predicate Continues(es: seq<RoamEvent>, stas: map<string, Station>, mac: string) {
    es != [] && es[|es| - 1].toBssid != "" ==> mac in stas && stas[mac].info.bssid == es[|es| - 1].toBssid
  }

  /** Once a sweep was heard the entry may have gone blank instead. */
  predicate Resting(es: seq<RoamEvent>, heard: map<string, Station>, mac: string) {
    es != [] && es[|es| - 1].toBssid != "" ==> mac in heard && heard[mac].info.bssid in {"", es[|es| - 1].toBssid}
  }

  lemma ChainedSnoc(es: seq<RoamEvent>, e: RoamEvent)
    requires Chained(es) && (es != [] ==> es[|es| - 1].toBssid == "" || e.fromBssid == es[|es| - 1].toBssid)
    ensures Chained(es + [e])
  {
  }

  lemma RoamChained(es: seq<RoamEvent>, heardNets: map<string, Network>, stas: map<string, Station>, sweep: Sweep, mac: string)
    requires Chained(es) && Continues(es, stas, mac)
    ensures var r := Roamed(heardNets, stas, sweep.stations, UnixMilli(sweep.now), mac);
            Chained(es + r) && Resting(es + r, Heard(stas, sweep), mac)
  {
    var nowMs := UnixMilli(sweep.now);
    LastHeardKey(sweep.stations, mac, nowMs);
    AddedExact(stas, sweep.stations, nowMs, mac);
    var r := Roamed(heardNets, stas, sweep.stations, nowMs, mac);
    if r != [] {
      assert r == [r[0]];
      ChainedSnoc(es, r[0]);
    } else {
      assert es + r == es;
    }
  }

  lemma DisconnectChained(es: seq<RoamEvent>, nets: map<string, Network>, stas: map<string, Station>, sweep: Sweep, mac: string)
    requires Chained(es) && Resting(es, Heard(stas, sweep), mac)
    ensures Chained(es + Disconnected(nets, stas, sweep, mac))
  {
    var d := Disconnected(nets, stas, sweep, mac);
    if d != [] {
      assert d == [d[0]];
      ChainedSnoc(es, d[0]);
    } else {
      assert es + d == es;
    }
  }

  lemma SweepKeepsChain(es: seq<RoamEvent>, nets: map<string, Network>, stas: map<string, Station>, sweep: Sweep, mac: string)
    requires Chained(es) && Continues(es, stas, mac)
    ensures Chained(es + SweepAdds(nets, stas, sweep, mac))
  {
    var heardNets := Added(nets, sweep.networks, UnixMilli(sweep.now));
    var r := Roamed(heardNets, stas, sweep.stations, UnixMilli(sweep.now), mac);
    RoamChained(es, heardNets, stas, sweep, mac);
    DisconnectChained(es + r, nets, stas, sweep, mac);
    ConcatAssociates(es, r, Disconnected(nets, stas, sweep, mac));
  }

  /** Every sweep there could be next keeps the chain. */
  ghost predicate AnySweepKeepsChain(es: seq<RoamEvent>, nets: map<string, Network>, stas: map<string, Station>, mac: string) {
    forall sweep, events | DistinctStations(sweep) && Emits(events, nets, stas, sweep) :: Chained(es + EventsOf(events, mac, false))
  }

  /** The exact condition: a chain survives every next sweep, blank sightings
      included, iff it is empty, ends in a disconnect, or the map still places the
      station where the last event left it. */
  lemma ChainKeptIff(es: seq<RoamEvent>, nets: map<string, Network>, stas: map<string, Station>, mac: string)
    requires Chained(es) && Keyed(stas)
    ensures AnySweepKeepsChain(es, nets, stas, mac) <==> Continues(es, stas, mac)
  {
    if Continues(es, stas, mac) {
      forall sweep, events | DistinctStations(sweep) && Emits(events, nets, stas, sweep)
        ensures Chained(es + EventsOf(events, mac, false))
      {
        SweepTrail(events, nets, stas, sweep, mac);
        SweepKeepsChain(es, nets, stas, sweep, mac);
      }
    } else {
      var sweep := BreakingSweep(es, stas, mac);
      var events := SomeEmission(nets, stas, sweep);
      SweepTrail(events, nets, stas, sweep, mac);
      BreakingSweepBreaks(es, nets, stas, mac);
    }
  }

  /** A name of an access point that is neither of two. */
  function Elsewhere(a: string, b: string): (r: string)
    ensures r != "" && r != a && r != b
  {
    if "x" != a && "x" != b then "x" else if "y" != a && "y" != b then "y" else "z"
  }

  /** The sweep that tears a chain whose last roam the map no longer shows: the
      station turns up at a third access point, or, with no association left to
      leave, is reported there by a sighting that is already stale. */
  function BreakingSweep(es: seq<RoamEvent>, stas: map<string, Station>, mac: string): Sweep
    requires es != []
  {
    var was := if mac in stas then stas[mac].info.bssid else "";
    var info := StationInfo(Elsewhere(es[|es| - 1].toBssid, was), "", 0);
    if was != "" then Sweep([], [Sighting(mac, 1, info)], NS_PER_MS)
    else Sweep([], [Sighting(mac, 1, info)], RETENTION_NS + 2 * NS_PER_MS)
  }

  lemma TornBy(es: seq<RoamEvent>, added: seq<RoamEvent>)
    requires es != [] && es[|es| - 1].toBssid != "" && added != [] && added[0].fromBssid != es[|es| - 1].toBssid
    ensures !Chained(es + added)
  {
    var torn := es + added;
    assert torn[|es| - 1] == es[|es| - 1] && torn[|es|] == added[0];
  }

  lemma AloneHeard(stas: map<string, Station>, s: Station, nowMs: int)
    ensures Added(stas, [s], nowMs) == stas[s.key := Stamp(s, nowMs)]
    ensures LastHeard([s], s.key, nowMs) == Some(Stamp(s, nowMs))
  {
    AddedSnoc(stas, [], s, nowMs);
    LastHeardSnoc([], s, s.key, nowMs);
    assert [] + [s] == [s];
  }

  lemma MovesElsewhere(nets: map<string, Network>, stas: map<string, Station>, mac: string, info: StationInfo)
    requires Keyed(stas) && mac in stas && info.bssid != "" && stas[mac].info.bssid != "" && stas[mac].info.bssid != info.bssid
    ensures var added := SweepAdds(nets, stas, Sweep([], [Sighting(mac, 1, info)], NS_PER_MS), mac);
            added != [] && added[0].fromBssid == stas[mac].info.bssid
  {
    AloneHeard(stas, Sighting(mac, 1, info), UnixMilli(NS_PER_MS));
  }

  lemma LeavesElsewhere(nets: map<string, Network>, stas: map<string, Station>, mac: string, info: StationInfo)
    requires mac in stas ==> stas[mac].info.bssid == ""
    requires info.bssid != ""
    ensures var added := SweepAdds(nets, stas, Sweep([], [Sighting(mac, 1, info)], RETENTION_NS + 2 * NS_PER_MS), mac);
            added != [] && added[0].fromBssid == info.bssid
  {
    AloneHeard(stas, Sighting(mac, 1, info), UnixMilli(RETENTION_NS + 2 * NS_PER_MS));
  }

  lemma BreakingSweepBreaks(es: seq<RoamEvent>, nets: map<string, Network>, stas: map<string, Station>, mac: string)
    requires Keyed(stas) && !Continues(es, stas, mac)
    ensures !Chained(es + SweepAdds(nets, stas, BreakingSweep(es, stas, mac), mac))
  {
    var was := if mac in stas then stas[mac].info.bssid else "";
    var info := StationInfo(Elsewhere(es[|es| - 1].toBssid, was), "", 0);
    if was != "" {
      MovesElsewhere(nets, stas, mac, info);
    } else {
      LeavesElsewhere(nets, stas, mac, info);
    }
    TornBy(es, SweepAdds(nets, stas, BreakingSweep(es, stas, mac), mac));
  }

  /** The sweep's stations were heard within the retention, as those the probe
      stamps on arrival are. */
  ghost predicate Fresh(sweep: Sweep) {
    forall i | 0 <= i < |sweep.stations| :: Stamp(sweep.stations[i], UnixMilli(sweep.now)).lastSeenMs >= Cutoff(sweep.now)
  }

  ghost predicate AnyFreshSweepKeepsChain(es: seq<RoamEvent>, nets: map<string, Network>, stas: map<string, Station>, mac: string) {
    forall sweep, events | DistinctStations(sweep) && Fresh(sweep) && Emits(events, nets, stas, sweep) ::
      Chained(es + EventsOf(events, mac, false))
  }

  /** The map shows the station nowhere else than where the last event left it. */
  predicate NotElsewhere(es: seq<RoamEvent>, stas: map<string, Station>, mac: string) {
    es != [] && es[|es| - 1].toBssid != "" && mac in stas ==> stas[mac].info.bssid in {"", es[|es| - 1].toBssid}
  }

  /** The exact condition when sweeps hear nothing stale: an absent or blank entry
      cannot break the chain at once, since it has no association to leave and a
      fresh sighting does not age out. */
  lemma ChainKeptByFreshIff(es: seq<RoamEvent>, nets: map<string, Network>, stas: map<string, Station>, mac: string)
    requires Chained(es) && Keyed(stas)
    ensures AnyFreshSweepKeepsChain(es, nets, stas, mac) <==> NotElsewhere(es, stas, mac)
  {
    if NotElsewhere(es, stas, mac) {
      forall sweep, events | DistinctStations(sweep) && Fresh(sweep) && Emits(events, nets, stas, sweep)
        ensures Chained(es + EventsOf(events, mac, false))
      {
        SweepTrail(events, nets, stas, sweep, mac);
        FreshKeepsChain(es, nets, stas, sweep, mac);
      }
    } else {
      var sweep := BreakingSweep(es, stas, mac);
      assert Fresh(sweep);
      var events := SomeEmission(nets, stas, sweep);
      SweepTrail(events, nets, stas, sweep, mac);
      BreakingSweepBreaks(es, nets, stas, mac);
    }
  }

  lemma FreshKeepsChain(es: seq<RoamEvent>, nets: map<string, Network>, stas: map<string, Station>, sweep: Sweep, mac: string)
    requires Chained(es) && NotElsewhere(es, stas, mac) && Fresh(sweep)
    ensures Chained(es + SweepAdds(nets, stas, sweep, mac))
  {
    if Continues(es, stas, mac) {
      SweepKeepsChain(es, nets, stas, sweep, mac);
    } else {
      UnassociatedIsSilent(nets, stas, sweep, mac);
      assert es + [] == es;
    }
  }

  lemma UnassociatedIsSilent(nets: map<string, Network>, stas: map<string, Station>, sweep: Sweep, mac: string)
    requires Fresh(sweep) && (mac in stas ==> stas[mac].info.bssid == "")
    ensures SweepAdds(nets, stas, sweep, mac) == []
  {
    var nowMs := UnixMilli(sweep.now);
    AddedExact(stas, sweep.stations, nowMs, mac);
    LastHeardKey(sweep.stations, mac, nowMs);
    LastHeardFresh(sweep.stations, mac, nowMs, Cutoff(sweep.now));
  }

  lemma {:induction false} LastHeardFresh<T>(heard: seq<Sighting<T>>, key: string, nowMs: int, cutoff: int)
    requires forall i | 0 <= i < |heard| :: Stamp(heard[i], nowMs).lastSeenMs >= cutoff
    ensures LastHeard(heard, key, nowMs).Some? ==> LastHeard(heard, key, nowMs).value.lastSeenMs >= cutoff
  {
    if heard != [] {
      LastHeardFresh(heard[..|heard| - 1], key, nowMs, cutoff);
    }
  }

  // Every sweep emits something: a sorted arrangement of its events exists.

  lemma {:induction false} SetAsSeq(events: set<RoamEvent>) returns (s: seq<RoamEvent>)
    ensures multiset(s) == multiset(events)
  {
    if events == {} {
      s := [];
    } else {
      var e :| e in events;
      var rest := SetAsSeq(events - {e});
      s := rest + [e];
      assert events == events - {e} + {e};
    }
  }

  lemma {:induction false} Arranged(events: seq<RoamEvent>) returns (r: seq<RoamEvent>)
    ensures multiset(r) == multiset(events) && SortedBy(r, DetectedLe)
  {
    if events == [] {
      r := [];
    } else {
      var init, e := events[..|events| - 1], events[|events| - 1];
      var sorted := Arranged(init);
      var i := PlaceFor(sorted, e);
      InsertSorted(sorted, i, e, DetectedLe);
      r := sorted[..i] + [e] + sorted[i..];
      assert events == init + [e];
    }
  }

  lemma {:induction false} PlaceFor(sorted: seq<RoamEvent>, e: RoamEvent) returns (i: nat)
    requires SortedBy(sorted, DetectedLe)
    ensures i <= |sorted|
    ensures forall j | 0 <= j < i :: DetectedLe(sorted[j], e)
    ensures forall j | i <= j < |sorted| :: DetectedLe(e, sorted[j])
  {
    if sorted == [] || DetectedLe(sorted[|sorted| - 1], e) {
      i := |sorted|;
    } else {
      i := PlaceFor(sorted[..|sorted| - 1], e);
    }
  }

  lemma SomeEmission(nets: map<string, Network>, stas: map<string, Station>, sweep: Sweep) returns (events: seq<RoamEvent>)
    ensures Emits(events, nets, stas, sweep)
  {
    var roams := Roams(stas, sweep.stations, Added(nets, sweep.networks, UnixMilli(sweep.now)), UnixMilli(sweep.now));
    var gone := SetAsSeq(Disconnects(Heard(stas, sweep), Merged(nets, sweep.networks, sweep.now), sweep.now));
    events := Arranged(roams + gone);
  }

  /** The station is where its last event left it, at an access point if anywhere. */
  ghost predicate Placed(es: seq<RoamEvent>, stas: map<string, Station>, mac: string) {
    Continues(es, stas, mac) && (mac in stas ==> stas[mac].info.bssid != "")
  }

  lemma SweepPlaces(es: seq<RoamEvent>, nets: map<string, Network>, stas: map<string, Station>, sweep: Sweep, mac: string)
    requires Placed(es, stas, mac)
    requires forall i | 0 <= i < |sweep.stations| && sweep.stations[i].key == mac :: sweep.stations[i].info.bssid != ""
    ensures Placed(es + SweepAdds(nets, stas, sweep, mac), Merged(stas, sweep.stations, sweep.now), mac)
  {
    var nowMs := UnixMilli(sweep.now);
    LastHeardKey(sweep.stations, mac, nowMs);
    AddedExact(stas, sweep.stations, nowMs, mac);
    var r := Roamed(Added(nets, sweep.networks, nowMs), stas, sweep.stations, nowMs, mac);
    RoamPlaces(es, r, stas, Heard(stas, sweep), mac, LastHeard(sweep.stations, mac, nowMs));
    DisconnectPlaces(es + r, nets, stas, sweep, mac);
    ConcatAssociates(es, r, Disconnected(nets, stas, sweep, mac));
  }

  lemma RoamPlaces(es: seq<RoamEvent>, r: seq<RoamEvent>, stas: map<string, Station>, heard: map<string, Station>, mac: string,
                   sighted: Option<Station>)
    requires Placed(es, stas, mac)
    requires match sighted
             case None => r == [] && (mac in heard <==> mac in stas) && (mac in stas ==> heard[mac] == stas[mac])
             case Some(s) =>
               && mac in heard && heard[mac] == s && s.info.bssid != ""
               && if mac in stas && stas[mac].info.bssid != s.info.bssid then |r| == 1 && r[0].toBssid == s.info.bssid else r == []
    ensures Placed(es + r, heard, mac)
  {
    if r == [] {
      assert es + r == es;
    }
  }

  lemma DisconnectPlaces(es: seq<RoamEvent>, nets: map<string, Network>, stas: map<string, Station>, sweep: Sweep, mac: string)
    requires Placed(es, Heard(stas, sweep), mac)
    ensures Placed(es + Disconnected(nets, stas, sweep, mac), Merged(stas, sweep.stations, sweep.now), mac)
  {
    var d := Disconnected(nets, stas, sweep, mac);
    if d == [] {
      assert es + d == es;
    }
  }

  lemma {:induction false} RetainedKeyed<T(!new)>(rounds: seq<Round<T>>)
    ensures Keyed(Retained(rounds))
  {
    if rounds != [] {
      var last := rounds[|rounds| - 1];
      RetainedKeyed(rounds[..|rounds| - 1]);
      AddedKeyed(Retained(rounds[..|rounds| - 1]), last.heard, UnixMilli(last.now));
    }
  }

  /** The roam chain over a whole run, for a station never sighted with an empty
      BSSID, read from the sorted lists the sweeps returned. */
  lemma {:induction false} RoamChain(sweeps: seq<Sweep>, emitted: seq<seq<RoamEvent>>, mac: string)
    requires Emitted(sweeps, emitted) && NeverBlank(sweeps, mac)
    requires forall k | 0 <= k < |sweeps| :: DistinctStations(sweeps[k])
    ensures Chained(Trail(emitted, mac))
    ensures Placed(Trail(emitted, mac), Retained(StaRounds(sweeps)), mac)
  {
    if sweeps != [] {
      var n := |sweeps| - 1;
      EmittedPrefix(sweeps, emitted, n);
      RoamChain(sweeps[..n], emitted[..n], mac);
      var nets, stas := Retained(NetRounds(sweeps[..n])), Retained(StaRounds(sweeps[..n]));
      RetainedKeyed(StaRounds(sweeps[..n]));
      ChainKeptIff(Trail(emitted[..n], mac), nets, stas, mac);
      SweepTrail(emitted[n], nets, stas, sweeps[n], mac);
      SweepPlaces(Trail(emitted[..n], mac), nets, stas, sweeps[n], mac);
      RetainedSnoc(sweeps);
    }
  }

  lemma EmittedPrefix(sweeps: seq<Sweep>, emitted: seq<seq<RoamEvent>>, n: nat)
    requires Emitted(sweeps, emitted) && n <= |sweeps|
    ensures Emitted(sweeps[..n], emitted[..n])
  {
    assert forall k | 0 <= k < n :: sweeps[..n][..k] == sweeps[..k];
  }

  lemma RetainedSnoc(sweeps: seq<Sweep>)
    requires sweeps != []
    ensures var last := sweeps[|sweeps| - 1];
            Retained(StaRounds(sweeps)) == Merged(Retained(StaRounds(sweeps[..|sweeps| - 1])), last.stations, last.now)
  {
    assert StaRounds(sweeps)[..|sweeps| - 1] == StaRounds(sweeps[..|sweeps| - 1]);
  }

  // One station heard alone, sweep after sweep, at the given access points.

  function HeardAt(bssid: string): Station {
    Sighting("m", 1, StationInfo(bssid, "", -50))
  }

  function LoneSweeps(bssids: seq<string>): seq<Sweep> {
    seq(|bssids|, i requires 0 <= i < |bssids| => Sweep([], [HeardAt(bssids[i])], NS_PER_MS))
  }

  function LoneEvents(bssids: seq<string>): seq<seq<RoamEvent>> {
    seq(|bssids|, i requires 0 <= i < |bssids| =>
      if i > 0 && bssids[i - 1] != "" && bssids[i] != "" && bssids[i - 1] != bssids[i]
      then [RoamEventOf("m", "", HeardAt(bssids[i - 1]), HeardAt(bssids[i]), map[])] else [])
  }

  function LoneMap(bssids: seq<string>): map<string, Station> {
    if bssids == [] then map[] else map["m" := HeardAt(bssids[|bssids| - 1])]
  }

  lemma LoneStep(before: seq<string>, bssid: string)
    ensures Merged(LoneMap(before), [HeardAt(bssid)], NS_PER_MS) == LoneMap(before + [bssid])
    ensures Emits(LoneEvents(before + [bssid])[|before|], map[], LoneMap(before), Sweep([], [HeardAt(bssid)], NS_PER_MS))
  {
    var stas, s := LoneMap(before), HeardAt(bssid);
    AddedSnoc(stas, [], s, 1);
    assert [] + [s] == [s];
    assert Added(stas, [s], 1) == map["m" := s];
    assert [s][..0] == [];
    assert Added<NetworkInfo>(map[], [], 1) == map[];
    assert Disconnects(Added(stas, [s], 1), Merged(map[], [], NS_PER_MS), NS_PER_MS) == {};
  }

  lemma {:induction false} LoneRun(bssids: seq<string>)
    ensures Retained(StaRounds(LoneSweeps(bssids))) == LoneMap(bssids)
    ensures Retained(NetRounds(LoneSweeps(bssids))) == map[]
  {
    if bssids != [] {
      var before, last := bssids[..|bssids| - 1], bssids[|bssids| - 1];
      LoneRun(before);
      LoneRunSnoc(before, last);
      assert before + [last] == bssids;
    }
  }

  lemma LoneRunSnoc(before: seq<string>, bssid: string)
    requires Retained(StaRounds(LoneSweeps(before))) == LoneMap(before) && Retained(NetRounds(LoneSweeps(before))) == map[]
    ensures Retained(StaRounds(LoneSweeps(before + [bssid]))) == LoneMap(before + [bssid])
    ensures Retained(NetRounds(LoneSweeps(before + [bssid]))) == map[]
  {
    LoneStep(before, bssid);
    LoneRounds(before, bssid);
  }

  lemma LoneRounds(before: seq<string>, bssid: string)
    ensures var was, now := LoneSweeps(before), LoneSweeps(before + [bssid]);
            && Retained(StaRounds(now)) == Merged(Retained(StaRounds(was)), [HeardAt(bssid)], NS_PER_MS)
            && (Retained(NetRounds(was)) == map[] ==> Retained(NetRounds(now)) == map[])
  {
    var was, now, n := LoneSweeps(before), LoneSweeps(before + [bssid]), |before|;
    assert StaRounds(now)[..n] == StaRounds(was);
    assert NetRounds(now)[..n] == NetRounds(was);
    assert Added<NetworkInfo>(map[], [], 1) == map[];
  }

  lemma LoneEmitted(bssids: seq<string>, k: nat)
    requires k < |bssids|
    ensures var sweeps := LoneSweeps(bssids);
            Emits(LoneEvents(bssids)[k], Retained(NetRounds(sweeps[..k])), Retained(StaRounds(sweeps[..k])), sweeps[k])
  {
    var before := bssids[..k];
    LoneRun(before);
    LoneStep(before, bssids[k]);
    assert LoneSweeps(bssids)[..k] == LoneSweeps(before);
    assert LoneEvents(before + [bssids[k]])[k] == LoneEvents(bssids)[k];
  }

  lemma TrailSnoc(emitted: seq<seq<RoamEvent>>, events: seq<RoamEvent>, mac: string)
    ensures Trail(emitted + [events], mac) == Trail(emitted, mac) + EventsOf(events, mac, false)
  {
    assert (emitted + [events])[..|emitted|] == emitted;
  }

  lemma OneEvent(e: RoamEvent)
    ensures EventsOf([e], e.mac, false) == [e]
  {
    assert [] + [e] == [e];
    EventsOfSnoc([], e, e.mac, false);
  }

  lemma TrailPair(emitted: seq<seq<RoamEvent>>, x: seq<RoamEvent>, y: seq<RoamEvent>, mac: string)
    ensures Trail(emitted + [x, y], mac) == Trail(emitted, mac) + EventsOf(x, mac, false) + EventsOf(y, mac, false)
  {
    TrailSnoc(emitted, x, mac);
    TrailSnoc(emitted + [x], y, mac);
    assert emitted + [x] + [y] == emitted + [x, y];
  }

  lemma LoneTrail(ab: RoamEvent, cd: RoamEvent)
    requires ab.mac == "m" && cd.mac == "m"
    ensures Trail([[], [ab], [], [], [cd]], "m") == [ab, cd]
  {
    LoneTrailHalf(ab);
    TrailPair([[], [ab], []], [], [cd], "m");
    assert [[], [ab], []] + [[], [cd]] == [[], [ab], [], [], [cd]];
    OneEvent(cd);
  }

  lemma LoneTrailHalf(ab: RoamEvent)
    requires ab.mac == "m"
    ensures Trail([[], [ab], []], "m") == [ab]
  {
    var none: seq<RoamEvent> := [];
    TrailSnoc([], none, "m");
    assert [] + [none] == [none];
    TrailPair([none], [ab], none, "m");
    assert [none] + [[ab], none] == [none, [ab], none];
    OneEvent(ab);
  }

  lemma LoneAllEmitted(bssids: seq<string>)
    ensures Emitted(LoneSweeps(bssids), LoneEvents(bssids))
  {
    forall k: nat | k < |bssids| {
      LoneEmitted(bssids, k);
    }
  }

  lemma LoneBreaks(bssids: seq<string>)
    requires bssids == ["a", "b", "", "c", "d"]
    ensures !Chained(Trail(LoneEvents(bssids), "m"))
  {
    var ab := RoamEventOf("m", "", HeardAt("a"), HeardAt("b"), map[]);
    var cd := RoamEventOf("m", "", HeardAt("c"), HeardAt("d"), map[]);
    LoneTrail(ab, cd);
    assert LoneEvents(bssids) == [[], [ab], [], [], [cd]];
    var es := Trail(LoneEvents(bssids), "m");
    assert es[1 - 1].toBssid == "b" && es[1].fromBssid == "c" && "b"[0] != "c"[0];
  }

  /** Why the premise is needed: a sighting with an empty BSSID overwrites the
      association, the next move goes unreported, and the chain breaks. */
  lemma BlankSightingBreaksChain()
    ensures exists sweeps, emitted, mac ::
              Emitted(sweeps, emitted) && (forall k | 0 <= k < |sweeps| :: DistinctStations(sweeps[k])) && !Chained(Trail(emitted, mac))
  {
    var bssids := ["a", "b", "", "c", "d"];
    LoneAllEmitted(bssids);
    LoneBreaks(bssids);
    assert forall k | 0 <= k < |LoneSweeps(bssids)| :: DistinctStations(LoneSweeps(bssids)[k]);
  }
}
