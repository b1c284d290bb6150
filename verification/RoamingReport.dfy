/** The roaming summary over a window: dwell times from one backward pass, roam
    classification, ping-pong and sticky clients. RSSI arithmetic is int32. */
module RoamingReport {
  import opened Sequences
  import opened Sorting

  type int32 = x: int | -0x8000_0000 <= x < 0x8000_0000

  function Wrap32(x: int): int32 {
    (x + 0x8000_0000) % 0x1_0000_0000 - 0x8000_0000
  }

  datatype Event = Event(mac: string, ssid: string, fromBssid: string, toBssid: string,
                         fromRssi: int32, toRssi: int32, detectedAtMs: int)

  datatype Quality = Good | Suboptimal | Bad | Disconnect | Unclassified

  datatype Entry = Entry(event: Event, quality: Quality, durationMs: int)

  datatype Heard = Heard(bssid: string, ssid: string, rssi: int32)

  datatype Summary = Summary(good: nat, suboptimal: nat, bad: nat, pingPongClients: nat, stickyClients: nat,
                             disconnects: nat, events: seq<Entry>)

  const PING_PONG_WINDOW_MS := 300_000
  const STICKY_RSSI_GAP_DB := 10
  const STICKY_MIN_DWELL_MS := 300_000

  predicate DetectedLe(a: Event, b: Event) {
    a.detectedAtMs <= b.detectedAtMs
  }

  function Classify(e: Event): Quality {
    if e.toBssid == "" then Disconnect
    else if e.fromRssi == 0 || e.toRssi == 0 then Unclassified
    else
      var delta := Wrap32(e.toRssi - e.fromRssi);
      if delta >= 0 then Good else if delta > -5 then Suboptimal else Bad
  }

  /** The class of a roam between known signals, for every pair of int32 values: by
      the gain in dB where the difference fits, and the wrong way round where it
      does not. */
  lemma ClassifyExact(e: Event)
    requires e.toBssid != "" && e.fromRssi != 0 && e.toRssi != 0
    ensures var gain := e.toRssi - e.fromRssi;
            && (Classify(e) == Good <==> 0 <= gain < 0x8000_0000 || gain < -0x8000_0000)
            && (Classify(e) == Bad <==> -0x8000_0000 <= gain <= -5 || 0x8000_0000 <= gain <= 0x1_0000_0000 - 5)
            && (Classify(e) == Suboptimal <==> -5 < gain < 0 || gain > 0x1_0000_0000 - 5)
  {
    WrapCases(e.toRssi - e.fromRssi);
  }

  lemma WrapCases(x: int)
    requires -0x1_0000_0000 < x < 0x1_0000_0000
    ensures Wrap32(x) == if x >= 0x8000_0000 then x - 0x1_0000_0000 else if x < -0x8000_0000 then x + 0x1_0000_0000 else x
  {
  }

  // ---------------------------------------------------------------------
  // Dwell times
  // ---------------------------------------------------------------------

  /** The time of the client's first event at or after index i. */
  function FirstFrom(s: seq<Event>, mac: string, i: nat): Option<int>
    decreases |s| - i
  {
    if i >= |s| then None
    else if s[i].mac == mac then Some(s[i].detectedAtMs)
    else FirstFrom(s, mac, i + 1)
  }

  /** The gap to the client's next event, or to the clock reading taken for its
      latest one. */
  function Gap(s: seq<Event>, clock: seq<int>, i: nat): int
    requires i < |s| == |clock|
  {
    match FirstFrom(s, s[i].mac, i + 1)
    case Some(next) => next - s[i].detectedAtMs
    case None => clock[i] - s[i].detectedAtMs
  }

  function EntryOf(s: seq<Event>, clock: seq<int>, i: nat): Entry
    requires i < |s| == |clock|
  {
    Entry(s[i], Classify(s[i]), if s[i].toBssid != "" then Gap(s, clock, i) else 0)
  }

  function CountFrom(s: seq<Event>, c: Quality, i: nat): nat
    decreases |s| - i
  {
    if i >= |s| then 0 else CountFrom(s, c, i + 1) + if Classify(s[i]) == c then 1 else 0
  }

  ghost predicate NextTimes(next: map<string, int>, s: seq<Event>, i: nat) {
    forall mac :: match FirstFrom(s, mac, i)
                  case Some(t) => mac in next && next[mac] == t
                  case None => mac !in next
  }

  /** The classified event log, newest first, with its counters. */
  method EventLog(s: seq<Event>, clock: seq<int>) returns (entries: seq<Entry>, good: nat, suboptimal: nat, bad: nat, disconnects: nat)
    requires |clock| == |s|
    ensures |entries| == |s| && forall k | 0 <= k < |s| :: entries[k] == EntryOf(s, clock, |s| - 1 - k)
    ensures good == CountFrom(s, Good, 0) && suboptimal == CountFrom(s, Suboptimal, 0)
    ensures bad == CountFrom(s, Bad, 0) && disconnects == CountFrom(s, Disconnect, 0)
  {
    var next: map<string, int> := map[];
    entries, good, suboptimal, bad, disconnects := [], 0, 0, 0, 0;
    var i := |s|;
    while i > 0
      invariant 0 <= i <= |s| && |entries| == |s| - i
      invariant NextTimes(next, s, i)
      invariant forall k | 0 <= k < |entries| :: entries[k] == EntryOf(s, clock, |s| - 1 - k)
      invariant good == CountFrom(s, Good, i) && suboptimal == CountFrom(s, Suboptimal, i)
      invariant bad == CountFrom(s, Bad, i) && disconnects == CountFrom(s, Disconnect, i)
    {
      i := i - 1;
      var e := s[i];
      var end := if e.mac in next then next[e.mac] else clock[i];
      assert end - e.detectedAtMs == Gap(s, clock, i);
      var duration := if e.toBssid != "" then end - e.detectedAtMs else 0;
      next := next[e.mac := e.detectedAtMs];
      var quality := Unclassified;
      if e.toBssid == "" {
        quality, disconnects := Disconnect, disconnects + 1;
      } else if e.fromRssi == 0 || e.toRssi == 0 {
        quality := Unclassified;
      } else {
        var delta := Wrap32(e.toRssi - e.fromRssi);
        if delta >= 0 {
          quality, good := Good, good + 1;
        } else if delta > -5 {
          quality, suboptimal := Suboptimal, suboptimal + 1;
        } else {
          quality, bad := Bad, bad + 1;
        }
      }
      entries := entries + [Entry(e, quality, duration)];
    }
  }

  /** Dwell times of a client, and its gaps after disconnects. */
  function DwellFrom(s: seq<Event>, clock: seq<int>, mac: string, i: nat): int
    requires |clock| == |s|
    decreases |s| - i
  {
    if i >= |s| then 0
    else DwellFrom(s, clock, mac, i + 1) + if s[i].mac == mac then EntryOf(s, clock, i).durationMs else 0
  }

  function OfflineFrom(s: seq<Event>, clock: seq<int>, mac: string, i: nat): int
    requires |clock| == |s|
    decreases |s| - i
  {
    if i >= |s| then 0
    else OfflineFrom(s, clock, mac, i + 1) + if s[i].mac == mac && s[i].toBssid == "" then Gap(s, clock, i) else 0
  }

  /** The index of the client's latest event. */
  ghost predicate LatestOf(s: seq<Event>, mac: string, i: nat) {
    i < |s| && s[i].mac == mac && forall j | i < j < |s| :: s[j].mac != mac
  }

  lemma {:induction false} NoneAfterLatest(s: seq<Event>, mac: string, i: nat)
    requires i <= |s| && forall j | i <= j < |s| :: s[j].mac != mac
    ensures FirstFrom(s, mac, i) == None
    decreases |s| - i
  {
    if i < |s| {
      NoneAfterLatest(s, mac, i + 1);
    }
  }

  lemma {:induction false} DwellTelescopes(s: seq<Event>, clock: seq<int>, mac: string, last: nat, i: nat)
    requires |clock| == |s| && LatestOf(s, mac, last) && i <= last
    ensures FirstFrom(s, mac, i).Some?
    ensures DwellFrom(s, clock, mac, i) + OfflineFrom(s, clock, mac, i) == clock[last] - FirstFrom(s, mac, i).value
    decreases |s| - i
  {
    if i == last {
      NoneAfterLatest(s, mac, i + 1);
      NothingAfter(s, clock, mac, i + 1);
    } else {
      DwellTelescopes(s, clock, mac, last, i + 1);
    }
  }

  lemma {:induction false} NothingAfter(s: seq<Event>, clock: seq<int>, mac: string, i: nat)
    requires |clock| == |s| && i <= |s| && forall j | i <= j < |s| :: s[j].mac != mac
    ensures DwellFrom(s, clock, mac, i) == 0 && OfflineFrom(s, clock, mac, i) == 0
    decreases |s| - i
  {
    if i < |s| {
      NothingAfter(s, clock, mac, i + 1);
    }
  }

  lemma {:induction false} FirstIsLater(s: seq<Event>, mac: string, i: nat, t: int)
    requires i <= |s| && forall j | i <= j < |s| :: t <= s[j].detectedAtMs
    ensures FirstFrom(s, mac, i).Some? ==> t <= FirstFrom(s, mac, i).value
    decreases |s| - i
  {
    if i < |s| {
      FirstIsLater(s, mac, i + 1, t);
    }
  }

  /** On a sorted log only a client's last gap, against the clock, can be negative. */
  lemma InnerGapsAreNotNegative(s: seq<Event>, clock: seq<int>, i: nat)
    requires |clock| == |s| && SortedBy(s, DetectedLe) && i < |s|
    ensures LatestOf(s, s[i].mac, i) || Gap(s, clock, i) >= 0
  {
    FirstIsLater(s, s[i].mac, i + 1, s[i].detectedAtMs) by {
      assert forall j | i < j < |s| :: DetectedLe(s[i], s[j]);
    }
    if FirstFrom(s, s[i].mac, i + 1).None? {
      FirstNone(s, s[i].mac, i + 1);
    }
  }

  lemma {:induction false} FirstNone(s: seq<Event>, mac: string, i: nat)
    requires i <= |s| && FirstFrom(s, mac, i).None?
    ensures forall j | i <= j < |s| :: s[j].mac != mac
    decreases |s| - i
  {
    if i < |s| {
      FirstNone(s, mac, i + 1);
    }
  }

  lemma {:induction false} CountsAddUp(s: seq<Event>, i: nat)
    requires i <= |s|
    ensures CountFrom(s, Good, i) + CountFrom(s, Suboptimal, i) + CountFrom(s, Bad, i) +
            CountFrom(s, Disconnect, i) + CountFrom(s, Unclassified, i) == |s| - i
    decreases |s| - i
  {
    if i < |s| {
      CountsAddUp(s, i + 1);
    }
  }

  // ---------------------------------------------------------------------
  // Ping-pong clients
  // ---------------------------------------------------------------------

  /** A client's events in time order. */
  function Of(s: seq<Event>, mac: string): seq<Event> {
    if s == [] then []
    else Of(s[..|s| - 1], mac) + if s[|s| - 1].mac == mac then [s[|s| - 1]] else []
  }

  function Macs(s: seq<Event>): set<string> {
    set i | 0 <= i < |s| :: s[i].mac
  }

  predicate Bounce(prev: Event, cur: Event) {
    && prev.fromBssid != "" && cur.toBssid == prev.fromBssid && cur.fromBssid == prev.toBssid
    && cur.detectedAtMs - prev.detectedAtMs <= PING_PONG_WINDOW_MS
  }

  predicate BouncesBefore(es: seq<Event>, n: nat) {
    exists i | 1 <= i < |es| && i < n :: Bounce(es[i - 1], es[i])
  }

  /** The client went back where it came from within the window. */
  predicate PingPongs(s: seq<Event>, mac: string) {
    BouncesBefore(Of(s, mac), |Of(s, mac)|)
  }

  function PingPongMacs(s: seq<Event>): set<string> {
    set mac | mac in Macs(s) && PingPongs(s, mac)
  }

  ghost predicate Indexes(byClient: map<string, seq<Event>>, s: seq<Event>) {
    byClient.Keys == Macs(s) && forall mac | mac in byClient :: byClient[mac] == Of(s, mac)
  }

  lemma {:induction false} AbsentHasNone(s: seq<Event>, mac: string)
    requires mac !in Macs(s)
    ensures Of(s, mac) == []
  {
    if s != [] {
      var init := s[..|s| - 1];
      assert Macs(init) <= Macs(s) by {
        assert forall i | 0 <= i < |init| :: init[i] == s[i];
      }
      AbsentHasNone(init, mac);
      assert s[|s| - 1].mac in Macs(s);
    }
  }

  lemma IndexesSnoc(byClient: map<string, seq<Event>>, s: seq<Event>, e: Event)
    requires Indexes(byClient, s)
    ensures Indexes(byClient[e.mac := (if e.mac in byClient then byClient[e.mac] else []) + [e]], s + [e])
  {
    var longer := s + [e];
    assert longer[..|s|] == s;
    assert Macs(longer) == Macs(s) + {e.mac} by {
      assert longer[|s|].mac == e.mac;
      assert forall i | 0 <= i < |s| :: longer[i] == s[i];
    }
    if e.mac !in byClient {
      AbsentHasNone(s, e.mac);
    }
  }

  /** Events i and j are consecutive ones of a client. */
  ghost predicate Consecutive(s: seq<Event>, mac: string, i: nat, j: nat) {
    i < j < |s| && s[i].mac == mac && s[j].mac == mac && forall k | i < k < j :: s[k].mac != mac
  }

  /** Having left an access point, the client is back there within five minutes. */
  ghost predicate ThereAndBack(s: seq<Event>, i: nat, j: nat)
    requires i < |s| && j < |s|
  {
    && s[i].fromBssid != "" && s[j].fromBssid == s[i].toBssid && s[j].toBssid == s[i].fromBssid
    && s[j].detectedAtMs <= s[i].detectedAtMs + 300_000
  }

  lemma {:induction false} LastOf(s: seq<Event>, mac: string) returns (i: nat)
    requires Of(s, mac) != []
    ensures i < |s| && s[i].mac == mac && s[i] == Of(s, mac)[|Of(s, mac)| - 1] && forall k | i < k < |s| :: s[k].mac != mac
  {
    var n := |s| - 1;
    if s[n].mac == mac {
      i := n;
    } else {
      i := LastOf(s[..n], mac);
      assert forall k | 0 <= k < n :: s[..n][k] == s[k];
    }
  }

  lemma {:induction false} NoneOf(s: seq<Event>, mac: string)
    requires Of(s, mac) == []
    ensures forall k | 0 <= k < |s| :: s[k].mac != mac
  {
    if s != [] {
      NoneOf(s[..|s| - 1], mac);
      assert forall k | 0 <= k < |s| - 1 :: s[..|s| - 1][k] == s[k];
    }
  }

  ghost predicate WentBack(s: seq<Event>, mac: string) {
    exists i: nat, j: nat | Consecutive(s, mac, i, j) :: ThereAndBack(s, i, j)
  }

  lemma BouncesSnoc(es: seq<Event>, e: Event)
    ensures BouncesBefore(es + [e], |es| + 1) <==> BouncesBefore(es, |es|) || (es != [] && Bounce(es[|es| - 1], e))
  {
    var longer := es + [e];
    if es != [] && Bounce(es[|es| - 1], e) {
      assert Bounce(longer[|es| - 1], longer[|es|]);
    }
    if BouncesBefore(es, |es|) {
      var i :| 1 <= i < |es| && Bounce(es[i - 1], es[i]);
      assert Bounce(longer[i - 1], longer[i]);
    }
  }

  lemma ConsecutivePrefix(s: seq<Event>, e: Event, mac: string, i: nat, j: nat)
    requires j < |s|
    ensures Consecutive(s + [e], mac, i, j) <==> Consecutive(s, mac, i, j)
    ensures i < j ==> (ThereAndBack(s + [e], i, j) <==> ThereAndBack(s, i, j))
  {
    assert forall k | 0 <= k < |s| :: (s + [e])[k] == s[k];
  }

  /** The event before the appended one, if the client had any. */
  lemma ConsecutiveLast(s: seq<Event>, e: Event, mac: string) returns (i: nat)
    requires e.mac == mac && Of(s, mac) != []
    ensures i < |s| && s[i] == Of(s, mac)[|Of(s, mac)| - 1]
    ensures forall k: nat :: Consecutive(s + [e], mac, k, |s|) <==> k == i
    ensures ThereAndBack(s + [e], i, |s|) <==> Bounce(s[i], e)
  {
    i := LastOf(s, mac);
    var longer := s + [e];
    assert longer[|s|] == e && forall k | 0 <= k < |s| :: longer[k] == s[k];
  }

  lemma NoConsecutiveLast(s: seq<Event>, e: Event, mac: string, k: nat)
    requires e.mac != mac || Of(s, mac) == []
    ensures !Consecutive(s + [e], mac, k, |s|)
  {
    var longer := s + [e];
    assert longer[|s|] == e;
    if e.mac == mac && k < |s| {
      NoneOf(s, mac);
      assert longer[k] == s[k];
    }
  }

  /** Going back is seen in the longer log iff it was before or its last event
      completes it. */
  lemma WentBackSnoc(s: seq<Event>, e: Event, mac: string)
    ensures WentBack(s + [e], mac) <==>
            WentBack(s, mac) || (e.mac == mac && Of(s, mac) != [] && Bounce(Of(s, mac)[|Of(s, mac)| - 1], e))
  {
    if WentBack(s, mac) {
      var i: nat, j: nat :| Consecutive(s, mac, i, j) && ThereAndBack(s, i, j);
      ConsecutivePrefix(s, e, mac, i, j);
    }
    if e.mac == mac && Of(s, mac) != [] {
      var i := ConsecutiveLast(s, e, mac);
      assert Consecutive(s + [e], mac, i, |s|);
    }
    if WentBack(s + [e], mac) {
      WentBackShrinks(s, e, mac);
    }
  }

  lemma WentBackShrinks(s: seq<Event>, e: Event, mac: string)
    requires WentBack(s + [e], mac)
    ensures WentBack(s, mac) || (e.mac == mac && Of(s, mac) != [] && Bounce(Of(s, mac)[|Of(s, mac)| - 1], e))
  {
    var i: nat, j: nat :| Consecutive(s + [e], mac, i, j) && ThereAndBack(s + [e], i, j);
    if j < |s| {
      ConsecutivePrefix(s, e, mac, i, j);
    } else if e.mac == mac && Of(s, mac) != [] {
      var last := ConsecutiveLast(s, e, mac);
    } else {
      NoConsecutiveLast(s, e, mac, i);
    }
  }

  /** Which clients are counted: exactly those with two consecutive events that take
      them away from an access point and back to it within five minutes. */
  lemma {:induction false} PingPongExact(s: seq<Event>, mac: string)
    ensures mac in PingPongMacs(s) <==> WentBack(s, mac)
  {
    PingPongsExact(s, mac);
    if WentBack(s, mac) {
      var i: nat, j: nat :| Consecutive(s, mac, i, j);
      assert s[i].mac in Macs(s);
    }
  }

  lemma {:induction false} PingPongsExact(s: seq<Event>, mac: string)
    ensures PingPongs(s, mac) <==> WentBack(s, mac)
  {
    if s != [] {
      var init, e := s[..|s| - 1], s[|s| - 1];
      PingPongsExact(init, mac);
      assert s == init + [e];
      WentBackSnoc(init, e, mac);
      if e.mac == mac {
        BouncesSnoc(Of(init, mac), e);
      } else {
        assert Of(s, mac) == Of(init, mac);
      }
    }
  }

  method CountPingPong(s: seq<Event>) returns (n: nat)
    ensures n == |PingPongMacs(s)|
  {
    var byClient: map<string, seq<Event>> := map[];
    for k := 0 to |s|
      invariant Indexes(byClient, s[..k])
    {
      IndexesSnoc(byClient, s[..k], s[k]);
      assert s[..k + 1] == s[..k] + [s[k]];
      byClient := byClient[s[k].mac := (if s[k].mac in byClient then byClient[s[k].mac] else []) + [s[k]]];
    }
    assert s[..|s|] == s;
    var pingPong, todo := {}, byClient.Keys;
    while todo != {}
      invariant todo <= byClient.Keys
      invariant pingPong == set mac | mac in byClient.Keys - todo && PingPongs(s, mac)
    {
      var mac :| mac in todo;
      var bounced := HasBounce(byClient[mac]);
      todo := todo - {mac};
      if bounced {
        pingPong := pingPong + {mac};
      }
    }
    assert pingPong == PingPongMacs(s);
    n := |pingPong|;
  }

  method HasBounce(events: seq<Event>) returns (found: bool)
    ensures found == BouncesBefore(events, |events|)
  {
    found := false;
    var i := 1;
    while i < |events|
      invariant 1 <= i && found == BouncesBefore(events, i)
    {
      var prev, cur := events[i - 1], events[i];
      if prev.fromBssid != "" && cur.toBssid == prev.fromBssid && cur.fromBssid == prev.toBssid &&
         cur.detectedAtMs - prev.detectedAtMs <= PING_PONG_WINDOW_MS {
        found := true;
      }
      i := i + 1;
    }
  }

  // ---------------------------------------------------------------------
  // Sticky clients
  // ---------------------------------------------------------------------

  /** The strongest access point of each named network in the latest sweep. */
  ghost predicate Strongest(best: map<string, int32>, nets: seq<Heard>) {
    && (forall ssid | ssid in best :: ssid != "" && exists i | 0 <= i < |nets| :: nets[i].ssid == ssid && nets[i].rssi == best[ssid])
    && (forall i | 0 <= i < |nets| && nets[i].ssid != "" :: nets[i].ssid in best && nets[i].rssi <= best[nets[i].ssid])
  }

  method BestRssi(nets: seq<Heard>) returns (best: map<string, int32>)
    ensures Strongest(best, nets)
  {
    best := map[];
    for k := 0 to |nets|
      invariant Strongest(best, nets[..k])
    {
      StrongestSnoc(best, nets[..k], nets[k]);
      assert nets[..k + 1] == nets[..k] + [nets[k]];
      var n := nets[k];
      if n.ssid == "" {
        continue;
      }
      if n.ssid !in best || n.rssi > best[n.ssid] {
        best := best[n.ssid := n.rssi];
      }
    }
    assert nets[..|nets|] == nets;
  }

  lemma StrongestSnoc(best: map<string, int32>, nets: seq<Heard>, n: Heard)
    requires Strongest(best, nets)
    ensures Strongest(if n.ssid != "" && (n.ssid !in best || n.rssi > best[n.ssid]) then best[n.ssid := n.rssi] else best, nets + [n])
  {
    var longer := nets + [n];
    var next := if n.ssid != "" && (n.ssid !in best || n.rssi > best[n.ssid]) then best[n.ssid := n.rssi] else best;
    assert longer[|nets|] == n;
    forall ssid | ssid in next
      ensures ssid != "" && exists i | 0 <= i < |longer| :: longer[i].ssid == ssid && longer[i].rssi == next[ssid]
    {
      if ssid == n.ssid && next != best {
        assert longer[|nets|].rssi == next[ssid];
      } else {
        var i :| 0 <= i < |nets| && nets[i].ssid == ssid && nets[i].rssi == best[ssid];
        assert longer[i] == nets[i];
      }
    }
  }

  /** The client has dwelled on an access point a sibling clearly outshines. */
  predicate Sticks(e: Entry, best: map<string, int32>) {
    && e.event.toBssid != "" && e.event.ssid in best
    && e.durationMs >= STICKY_MIN_DWELL_MS && Wrap32(best[e.event.ssid] - e.event.toRssi) >= STICKY_RSSI_GAP_DB
  }

  /** Another access point of the client's SSID was heard that much stronger. */
  ghost predicate StrongerSibling(e: Entry, nets: seq<Heard>) {
    exists i | 0 <= i < |nets| :: nets[i].ssid == e.event.ssid && nets[i].bssid != e.event.toBssid &&
      nets[i].rssi - e.event.toRssi >= STICKY_RSSI_GAP_DB
  }

  /** The client's own access point was, in the latest sweep. */
  ghost predicate StrongerSelf(e: Entry, nets: seq<Heard>) {
    exists i | 0 <= i < |nets| :: nets[i].ssid == e.event.ssid && nets[i].bssid == e.event.toBssid &&
      nets[i].rssi - e.event.toRssi >= STICKY_RSSI_GAP_DB
  }

  ghost predicate GapsFit(e: Entry, nets: seq<Heard>) {
    forall i | 0 <= i < |nets| :: -0x8000_0000 <= nets[i].rssi - e.event.toRssi < 0x8000_0000
  }

  /** What sticky means: an associated client of a named network that has dwelled
      five minutes, and a much stronger sibling, as intended, or its own access
      point heard that much stronger than when the client arrived. So the two
      readings agree iff the latter does not happen alone. */
  lemma SticksExact(e: Entry, best: map<string, int32>, nets: seq<Heard>)
    requires Strongest(best, nets) && GapsFit(e, nets)
    ensures Sticks(e, best) <==>
            && e.event.toBssid != "" && e.event.ssid != "" && e.durationMs >= 300_000
            && (StrongerSibling(e, nets) || StrongerSelf(e, nets))
  {
    if e.event.ssid in best {
      var k :| 0 <= k < |nets| && nets[k].ssid == e.event.ssid && nets[k].rssi == best[e.event.ssid];
      GapIsPlain(best, e, nets, k);
      assert nets[k].bssid == e.event.toBssid || nets[k].bssid != e.event.toBssid;
    }
    if i :| 0 <= i < |nets| && nets[i].ssid == e.event.ssid != "" && nets[i].rssi - e.event.toRssi >= STICKY_RSSI_GAP_DB {
      assert nets[i].ssid in best && nets[i].rssi <= best[nets[i].ssid];
    }
  }

  lemma GapIsPlain(best: map<string, int32>, e: Entry, nets: seq<Heard>, i: nat)
    requires i < |nets| && GapsFit(e, nets) && e.event.ssid in best && nets[i].rssi == best[e.event.ssid]
    ensures Wrap32(best[e.event.ssid] - e.event.toRssi) == nets[i].rssi - e.event.toRssi
  {
    WrapCases(nets[i].rssi - e.event.toRssi);
  }

  /** A client can be sticky with no other access point in the air. */
  lemma StickyWithoutSibling()
    ensures var nets := [Heard("a", "net", -40)];
            var e := Entry(Event("m", "net", "b", "a", -60, -70, 0), Bad, STICKY_MIN_DWELL_MS);
            Strongest(map["net" := -40], nets) && Sticks(e, map["net" := -40]) && !StrongerSibling(e, nets)
  {
    var nets := [Heard("a", "net", -40)];
    assert nets[0].ssid == "net";
    WrapCases(30);
  }

  function EntryMacs(entries: seq<Entry>): set<string> {
    set i | 0 <= i < |entries| :: entries[i].event.mac
  }

  /** The clients whose newest entry is sticky; entries are newest first. */
  function StickyMacs(entries: seq<Entry>, best: map<string, int32>): set<string> {
    if entries == [] then {}
    else
      var init, e := entries[..|entries| - 1], entries[|entries| - 1];
      StickyMacs(init, best) + if e.event.mac !in EntryMacs(init) && Sticks(e, best) then {e.event.mac} else {}
  }

  lemma {:induction false} StickyExact(entries: seq<Entry>, best: map<string, int32>, mac: string)
    ensures mac in StickyMacs(entries, best) <==>
            exists k | 0 <= k < |entries| ::
              entries[k].event.mac == mac && Sticks(entries[k], best) && forall j | 0 <= j < k :: entries[j].event.mac != mac
  {
    if entries != [] {
      var n := |entries| - 1;
      var init := entries[..n];
      assert forall j | 0 <= j < n :: init[j] == entries[j];
      StickyExact(init, best, mac);
      if mac in StickyMacs(init, best) {
        var k :| 0 <= k < n && init[k].event.mac == mac && Sticks(init[k], best) && forall j | 0 <= j < k :: init[j].event.mac != mac;
        assert entries[k].event.mac == mac;
      } else if mac in StickyMacs(entries, best) {
        assert forall j | 0 <= j < n :: init[j].event.mac in EntryMacs(init);
        assert entries[n].event.mac == mac;
      }
    }
  }

  /** After k entries: the clients seen, and how many of them stick. */
  ghost predicate Counted(entries: seq<Entry>, k: nat, best: map<string, int32>, seen: set<string>, sticky: nat) {
    k <= |entries| && seen == EntryMacs(entries[..k]) && sticky == |StickyMacs(entries[..k], best)|
  }

  method CountSticky(entries: seq<Entry>, best: map<string, int32>) returns (sticky: nat)
    ensures sticky == |StickyMacs(entries, best)|
  {
    sticky := 0;
    var seen := {};
    for k := 0 to |entries|
      invariant Counted(entries, k, best, seen, sticky)
    {
      EntryCounted(entries, k, best, seen, sticky);
      seen, sticky := CountEntry(entries[k], best, seen, sticky);
    }
    assert entries[..|entries|] == entries;
  }

  /** One round of the sticky scan. */
  method CountEntry(e: Entry, best: map<string, int32>, seen0: set<string>, sticky0: nat) returns (seen: set<string>, sticky: nat)
    ensures seen == seen0 + {e.event.mac}
    ensures sticky == sticky0 + if e.event.mac !in seen0 && Sticks(e, best) then 1 else 0
  {
    seen, sticky := seen0, sticky0;
    if e.event.mac in seen {
      return;
    }
    seen := seen + {e.event.mac};
    if e.event.toBssid == "" {
      return;
    }
    if e.event.ssid !in best {
      return;
    }
    if e.durationMs >= STICKY_MIN_DWELL_MS && Wrap32(best[e.event.ssid] - e.event.toRssi) >= STICKY_RSSI_GAP_DB {
      sticky := sticky + 1;
    }
  }

  lemma EntryCounted(entries: seq<Entry>, k: nat, best: map<string, int32>, seen: set<string>, sticky: nat)
    requires k < |entries| && Counted(entries, k, best, seen, sticky)
    ensures var e := entries[k];
            Counted(entries, k + 1, best, seen + {e.event.mac}, sticky + if e.event.mac !in seen && Sticks(e, best) then 1 else 0)
  {
    assert entries[..k + 1] == entries[..k] + [entries[k]];
    EntryMacsSnoc(entries[..k], entries[k]);
    StickySnoc(entries[..k], entries[k], best);
  }

  lemma {:induction false} StickyAreEntries(entries: seq<Entry>, best: map<string, int32>)
    ensures StickyMacs(entries, best) <= EntryMacs(entries)
  {
    if entries != [] {
      var init, e := entries[..|entries| - 1], entries[|entries| - 1];
      StickyAreEntries(init, best);
      EntryMacsSnoc(init, e);
      assert entries == init + [e];
    }
  }

  lemma StickySnoc(entries: seq<Entry>, e: Entry, best: map<string, int32>)
    ensures |StickyMacs(entries + [e], best)| ==
            |StickyMacs(entries, best)| + if e.event.mac !in EntryMacs(entries) && Sticks(e, best) then 1 else 0
  {
    assert (entries + [e])[..|entries|] == entries;
    StickyAreEntries(entries, best);
  }

  lemma EntryMacsSnoc(entries: seq<Entry>, e: Entry)
    ensures EntryMacs(entries + [e]) == EntryMacs(entries) + {e.event.mac}
  {
    var longer := entries + [e];
    assert longer[|entries|] == e;
    assert forall i | 0 <= i < |entries| :: longer[i] == entries[i];
  }

  // ---------------------------------------------------------------------
  // The report
  // ---------------------------------------------------------------------

  /** The events of a log that lists the newest first, oldest first. */
  function Chronological(entries: seq<Entry>): (s: seq<Event>)
    ensures |s| == |entries|
  {
    seq(|entries|, i requires 0 <= i < |entries| => entries[|entries| - 1 - i].event)
  }

  /** What the strongest access points are does not depend on how they are found. */
  lemma StrongestUnique(a: map<string, int32>, b: map<string, int32>, nets: seq<Heard>)
    requires Strongest(a, nets) && Strongest(b, nets)
    ensures a == b
  {
    StrongestAtMost(a, b, nets);
    StrongestAtMost(b, a, nets);
  }

  lemma StrongestAtMost(a: map<string, int32>, b: map<string, int32>, nets: seq<Heard>)
    requires Strongest(a, nets) && Strongest(b, nets)
    ensures forall ssid | ssid in a :: ssid in b && a[ssid] <= b[ssid]
  {
    forall ssid | ssid in a
      ensures ssid in b && a[ssid] <= b[ssid]
    {
      var i :| 0 <= i < |nets| && nets[i].ssid == ssid && nets[i].rssi == a[ssid];
      assert nets[i].ssid in b;
    }
  }

  ghost predicate IsLog(entries: seq<Entry>, s: seq<Event>, clock: seq<int>)
    requires |clock| == |s|
  {
    |entries| == |s| && forall k | 0 <= k < |s| :: entries[k] == EntryOf(s, clock, |s| - 1 - k)
  }

  lemma LogIsChronological(entries: seq<Entry>, s: seq<Event>, clock: seq<int>)
    requires |clock| == |s| && IsLog(entries, s, clock)
    ensures Chronological(entries) == s
  {
  }

  ghost predicate CountersAre(summary: Summary, s: seq<Event>) {
    && summary.good == CountFrom(s, Good, 0) && summary.suboptimal == CountFrom(s, Suboptimal, 0)
    && summary.bad == CountFrom(s, Bad, 0) && summary.disconnects == CountFrom(s, Disconnect, 0)
    && summary.good + summary.suboptimal + summary.bad + summary.disconnects + CountFrom(s, Unclassified, 0) == |s|
    && summary.pingPongClients == |PingPongMacs(s)|
  }

  method Summarise(s: seq<Event>, best: map<string, int32>, clock: seq<int>) returns (summary: Summary)
    requires |clock| == |s|
    ensures IsLog(summary.events, s, clock) && CountersAre(summary, s)
    ensures summary.stickyClients == |StickyMacs(summary.events, best)|
  {
    var pingPong := CountPingPong(s);
    var entries, good, suboptimal, bad, disconnects := EventLog(s, clock);
    var sticky := CountSticky(entries, best);
    CountsAddUp(s, 0);
    summary := Summary(good, suboptimal, bad, pingPong, sticky, disconnects, entries);
  }

  ghost predicate StickyCounted(summary: Summary, nets: seq<Heard>) {
    forall best | Strongest(best, nets) :: summary.stickyClients == |StickyMacs(summary.events, best)|
  }

  lemma StickyByAnyBest(summary: Summary, best: map<string, int32>, nets: seq<Heard>)
    requires Strongest(best, nets) && summary.stickyClients == |StickyMacs(summary.events, best)|
    ensures StickyCounted(summary, nets)
  {
    forall other | Strongest(other, nets)
      ensures other == best
    {
      StrongestUnique(other, best, nets);
    }
  }

  /** clock[i] is the reading taken if event i is its client's latest. */
  method WlanRoaming(all: seq<Event>, latestNetworks: seq<Heard>, clock: seq<int>) returns (summary: Summary)
    requires |clock| == |all|
    ensures var s := Chronological(summary.events);
            && |s| == |all| && multiset(s) == multiset(all) && SortedBy(s, DetectedLe)
            && IsLog(summary.events, s, clock) && CountersAre(summary, s)
    ensures StickyCounted(summary, latestNetworks)
  {
    var s := SortSlice(all, DetectedLe);
    var best := BestRssi(latestNetworks);
    summary := Summarise(s, best, clock);
    LogIsChronological(summary.events, s, clock);
    StickyByAnyBest(summary, best, latestNetworks);
  }
}
