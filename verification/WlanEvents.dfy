/** What the roam and disconnect events of the passive sweeps say, in terms of the
    sightings themselves. */
module WlanEvents {
  import opened Sequences
  import opened WlanRetention

  /** Ten minutes before now, in milliseconds. */
  lemma CutoffExact(now: int)
    ensures Cutoff(now) == UnixMilli(now) - 600_000
    ensures UnixMilli(now) * 1_000_000 <= now < (UnixMilli(now) + 1) * 1_000_000
  {
  }

  /** When a sighting was made: its own time, or the sweep's if it has none. */
  ghost predicate MadeAt<T>(s: Sighting<T>, now: int, ms: int) {
    if s.lastSeenMs == 0 then ms == UnixMilli(now) else ms == s.lastSeenMs
  }

  /** The i-th sighting of round k is the last one of its key up to and including
      the last round. */
  ghost predicate LastSighting<T>(rounds: seq<Round<T>>, key: string, k: nat, i: nat) {
    && k < |rounds| && i < |rounds[k].heard| && rounds[k].heard[i].key == key
    && (forall j | i < j < |rounds[k].heard| :: rounds[k].heard[j].key != key)
    && (forall l, j | k < l < |rounds| && 0 <= j < |rounds[l].heard| :: rounds[l].heard[j].key != key)
  }

  lemma {:induction false} LastHeardAt<T>(heard: seq<Sighting<T>>, key: string, nowMs: int) returns (i: nat)
    requires LastHeard(heard, key, nowMs).Some?
    ensures i < |heard| && heard[i].key == key && LastHeard(heard, key, nowMs) == Some(Stamp(heard[i], nowMs))
    ensures forall j | i < j < |heard| :: heard[j].key != key
  {
    i := |heard| - 1;
    if heard[i].key != key {
      var init := heard[..i];
      var at := LastHeardAt(init, key, nowMs);
      assert forall j | 0 <= j < |init| :: init[j] == heard[j];
      i := at;
    }
  }

  /** Latest is the last sighting there was, unchanged but for a missing time. */
  lemma {:induction false} LatestExact<T>(rounds: seq<Round<T>>, key: string) returns (k: nat, i: nat)
    requires Latest(rounds, key).Some?
    ensures LastSighting(rounds, key, k, i)
    ensures var s, was := Latest(rounds, key).value, rounds[k].heard[i];
            s.key == key && s.info == was.info && MadeAt(was, rounds[k].now, s.lastSeenMs)
  {
    k := |rounds| - 1;
    var last := rounds[k];
    if LastHeard(last.heard, key, UnixMilli(last.now)).Some? {
      i := LastHeardAt(last.heard, key, UnixMilli(last.now));
    } else {
      LastHeardKey(last.heard, key, UnixMilli(last.now));
      var init := rounds[..k];
      var at, j := LatestExact(init, key);
      assert forall l | 0 <= l < |init| :: init[l] == rounds[l];
      k, i := at, j;
    }
  }

  /** Nothing is latest only for a key never sighted. */
  lemma {:induction false} NeverSighted<T>(rounds: seq<Round<T>>, key: string)
    requires Latest(rounds, key).None?
    ensures forall k, i | 0 <= k < |rounds| && 0 <= i < |rounds[k].heard| :: rounds[k].heard[i].key != key
  {
    if rounds != [] {
      var n := |rounds| - 1;
      NeverSighted(rounds[..n], key);
      LastHeardKey(rounds[n].heard, key, UnixMilli(rounds[n].now));
      assert forall k | 0 <= k < n :: rounds[..n][k] == rounds[k];
    }
  }

  /** The channel a map knows for an access point, 0 for none. */
  ghost predicate OnChannelOf(nets: map<string, Network>, bssid: string, channel: nat) {
    if bssid in nets then channel == nets[bssid].info.channel else channel == 0
  }

  /** A station's network: as it says itself, else as its access point does. */
  ghost predicate OfNetwork(s: StationInfo, nets: map<string, Network>, ssid: string) {
    if s.ssid != "" then ssid == s.ssid
    else if s.bssid in nets then ssid == nets[s.bssid].info.ssid
    else ssid == ""
  }

  /** The event tells of a station last known as `was` and now sighted as `s`. */
  ghost predicate TellsMove(e: RoamEvent, was: Station, s: Station, nets: map<string, Network>, now: int) {
    && e.mac == s.key
    && was.info.bssid != "" && s.info.bssid != "" && was.info.bssid != s.info.bssid
    && e.fromBssid == was.info.bssid && e.fromRssi == was.info.rssi && OnChannelOf(nets, was.info.bssid, e.fromChannel)
    && e.toBssid == s.info.bssid && e.toRssi == s.info.rssi && OnChannelOf(nets, s.info.bssid, e.toChannel)
    && OfNetwork(s.info, nets, e.ssid)
    && MadeAt(s, now, e.detectedAtMs)
    && e.roamTimeMs == (if e.detectedAtMs < was.lastSeenMs then 0 else e.detectedAtMs - was.lastSeenMs)
  }

  /** The event tells of a station that aged out as `s`. */
  ghost predicate TellsLeave(e: RoamEvent, s: Station, nets: map<string, Network>, now: int) {
    && e.mac == s.key && s.info.bssid != "" && s.lastSeenMs < UnixMilli(now) - 600_000
    && e.fromBssid == s.info.bssid && e.fromRssi == s.info.rssi && OnChannelOf(nets, s.info.bssid, e.fromChannel)
    && e.toBssid == "" && e.toRssi == 0 && e.toChannel == 0 && e.roamTimeMs == 0
    && OfNetwork(s.info, nets, e.ssid)
    && e.detectedAtMs == UnixMilli(now)
  }

  /** The i-th station heard had moved, and e says so. */
  ghost predicate MoveAt(e: RoamEvent, stas: map<string, Station>, heard: seq<Station>, i: nat, nets: map<string, Network>, now: int) {
    && i < |heard|
    && heard[i].key in Added(stas, heard[..i], UnixMilli(now))
    && TellsMove(e, Added(stas, heard[..i], UnixMilli(now))[heard[i].key], heard[i], nets, now)
  }

  lemma RoamTells(stas: map<string, Station>, s: Station, nets: map<string, Network>, now: int)
    requires Moved(stas, Stamp(s, UnixMilli(now)))
    ensures var x := Stamp(s, UnixMilli(now));
            TellsMove(RoamEventOf(x.key, SsidFor(x, nets), stas[x.key], x, nets), stas[s.key], s, nets, now)
  {
  }

  /** Every roam reported by a sweep tells of one of its sightings, against what was
      known of the station up to then. */
  lemma {:induction false} RoamsTell(stas: map<string, Station>, heard: seq<Station>, nets: map<string, Network>, now: int, e: RoamEvent)
    returns (i: nat)
    requires e in Roams(stas, heard, nets, UnixMilli(now))
    ensures MoveAt(e, stas, heard, i, nets, now)
  {
    var n := |heard| - 1;
    var init := heard[..n];
    if e in Roams(stas, init, nets, UnixMilli(now)) {
      i := RoamsTell(stas, init, nets, now, e);
      assert init[..i] == heard[..i] && init[i] == heard[i];
    } else {
      i := n;
      RoamTells(Added(stas, init, UnixMilli(now)), heard[n], nets, now);
    }
  }

  /** And every sighting at another access point is reported. */
  lemma {:induction false} MovesAreTold(stas: map<string, Station>, heard: seq<Station>, nets: map<string, Network>, now: int, i: nat)
    returns (e: RoamEvent)
    requires i < |heard|
    requires var before := Added(stas, heard[..i], UnixMilli(now));
             && heard[i].key in before && before[heard[i].key].info.bssid != "" && heard[i].info.bssid != ""
             && before[heard[i].key].info.bssid != heard[i].info.bssid
    ensures e in Roams(stas, heard, nets, UnixMilli(now)) && MoveAt(e, stas, heard, i, nets, now)
  {
    var n := |heard| - 1;
    if i < n {
      assert heard[..n][..i] == heard[..i];
      e := MovesAreTold(stas, heard[..n], nets, now, i);
    } else {
      var before, x := Added(stas, heard[..n], UnixMilli(now)), Stamp(heard[n], UnixMilli(now));
      e := RoamEventOf(x.key, SsidFor(x, nets), before[x.key], x, nets);
      RoamTells(before, heard[n], nets, now);
      assert Roams(stas, heard, nets, UnixMilli(now)) == Roams(stas, heard[..n], nets, UnixMilli(now)) + [e];
    }
  }

  lemma DisconnectTells(s: Station, nets: map<string, Network>, now: int)
    requires Leaving(s, Cutoff(now))
    ensures TellsLeave(DisconnectOf(s, nets, UnixMilli(now)), s, nets, now)
  {
    CutoffExact(now);
  }

  ghost predicate SomeMove(e: RoamEvent, nets: map<string, Network>, stas: map<string, Station>, sweep: Sweep) {
    exists i: nat :: MoveAt(e, stas, sweep.stations, i, Added(nets, sweep.networks, UnixMilli(sweep.now)), sweep.now)
  }

  ghost predicate SomeLeave(e: RoamEvent, nets: map<string, Network>, stas: map<string, Station>, sweep: Sweep) {
    exists mac | mac in Heard(stas, sweep) ::
      TellsLeave(e, Heard(stas, sweep)[mac], Merged(nets, sweep.networks, sweep.now), sweep.now)
  }

  /** Everything a sweep emits is told truthfully: a move of one of its sightings, or
      the leave of a station it did not keep. */
  lemma EmissionTells(events: seq<RoamEvent>, nets: map<string, Network>, stas: map<string, Station>, sweep: Sweep, e: RoamEvent)
    requires Emits(events, nets, stas, sweep) && e in events
    ensures SomeMove(e, nets, stas, sweep) || SomeLeave(e, nets, stas, sweep)
  {
    var roams := Roams(stas, sweep.stations, Added(nets, sweep.networks, UnixMilli(sweep.now)), UnixMilli(sweep.now));
    var gone := Disconnects(Heard(stas, sweep), Merged(nets, sweep.networks, sweep.now), sweep.now);
    InEither(events, roams, gone, e);
    if e in roams {
      var i := RoamsTell(stas, sweep.stations, Added(nets, sweep.networks, UnixMilli(sweep.now)), sweep.now, e);
    } else {
      LeaveTells(nets, stas, sweep, e);
    }
  }

  lemma InEither(events: seq<RoamEvent>, roams: seq<RoamEvent>, gone: set<RoamEvent>, e: RoamEvent)
    requires multiset(events) == multiset(roams) + multiset(gone) && e in events
    ensures e in roams || e in gone
  {
    assert e in multiset(events);
  }

  lemma LeaveTells(nets: map<string, Network>, stas: map<string, Station>, sweep: Sweep, e: RoamEvent)
    requires e in Disconnects(Heard(stas, sweep), Merged(nets, sweep.networks, sweep.now), sweep.now)
    ensures SomeLeave(e, nets, stas, sweep)
  {
    var heard, kept := Heard(stas, sweep), Merged(nets, sweep.networks, sweep.now);
    var mac :| mac in heard && Leaving(heard[mac], Cutoff(sweep.now)) && e == DisconnectOf(heard[mac], kept, UnixMilli(sweep.now));
    DisconnectTells(heard[mac], kept, sweep.now);
  }

  /** What a map knows of a key once a round was heard is its last sighting so far. */
  lemma HeardIsLatest<T>(rounds: seq<Round<T>>, last: Round<T>, key: string)
    requires Monotone(rounds) && key in Added(Retained(rounds), last.heard, UnixMilli(last.now))
    ensures Latest(rounds + [last], key) == Some(Added(Retained(rounds), last.heard, UnixMilli(last.now))[key])
  {
    assert (rounds + [last])[..|rounds|] == rounds;
    AddedExact(Retained(rounds), last.heard, UnixMilli(last.now), key);
    if key in Retained(rounds) {
      RetainedIsLatest(rounds, key);
    }
  }

  lemma RetainedIsLatest<T>(rounds: seq<Round<T>>, key: string)
    requires Monotone(rounds) && key in Retained(rounds)
    ensures Latest(rounds, key) == Some(Retained(rounds)[key])
  {
    if rounds != [] {
      RetentionExact(rounds, key);
    }
  }

  lemma RoundsSnoc(sweeps: seq<Sweep>, n: nat)
    requires n < |sweeps|
    ensures NetRounds(sweeps[..n + 1]) == NetRounds(sweeps[..n]) + [Round(sweeps[n].networks, sweeps[n].now)]
    ensures StaRounds(sweeps[..n + 1]) == StaRounds(sweeps[..n]) + [Round(sweeps[n].stations, sweeps[n].now)]
    ensures InTimeOrder(sweeps) ==> Monotone(NetRounds(sweeps[..n])) && Monotone(StaRounds(sweeps[..n]))
  {
  }

  ghost predicate InTimeOrder(sweeps: seq<Sweep>) {
    forall i, j | 0 <= i < j < |sweeps| :: sweeps[i].now <= sweeps[j].now
  }

  /** The channel is that of the access point's last sighting, in sweep n or before,
      or 0 where it is no longer known. */
  ghost predicate ChannelInHistory(sweeps: seq<Sweep>, n: nat, bssid: string, channel: nat)
    requires n < |sweeps|
  {
    var rounds := NetRounds(sweeps[..n + 1]);
    channel == 0 || exists k: nat, j: nat | LastSighting(rounds, bssid, k, j) :: channel == rounds[k].heard[j].info.channel
  }

  lemma ChannelIsLatest(sweeps: seq<Sweep>, n: nat, bssid: string, channel: nat)
    requires n < |sweeps| && InTimeOrder(sweeps)
    requires OnChannelOf(Added(Retained(NetRounds(sweeps[..n])), sweeps[n].networks, UnixMilli(sweeps[n].now)), bssid, channel)
    ensures ChannelInHistory(sweeps, n, bssid, channel)
  {
    RoundsSnoc(sweeps, n);
    if channel != 0 {
      HeardIsLatest(NetRounds(sweeps[..n]), Round(sweeps[n].networks, sweeps[n].now), bssid);
      var k, j := LatestExact(NetRounds(sweeps[..n + 1]), bssid);
    }
  }

  /** Over whole runs, in terms of raw sightings: a roam starts where, and with the
      signal with which, the station was last sighted in an earlier sweep, ends
      where this sweep sighted it, and names the channels of the last sightings of
      the two access points. */
  lemma RoamTellsHistory(sweeps: seq<Sweep>, emitted: seq<seq<RoamEvent>>, n: nat, e: RoamEvent) returns (i: nat, k: nat, j: nat)
    requires Emitted(sweeps, emitted) && InTimeOrder(sweeps) && n < |sweeps| && DistinctStations(sweeps[n])
    requires e in emitted[n] && e.toBssid != ""
    ensures i < |sweeps[n].stations| && LastSighting(StaRounds(sweeps[..n]), e.mac, k, j)
    ensures var s, was := sweeps[n].stations[i], sweeps[k].stations[j];
            && s.key == was.key == e.mac
            && e.fromBssid == was.info.bssid && e.fromRssi == was.info.rssi
            && e.toBssid == s.info.bssid && e.toRssi == s.info.rssi && MadeAt(s, sweeps[n].now, e.detectedAtMs)
    ensures ChannelInHistory(sweeps, n, e.fromBssid, e.fromChannel) && ChannelInHistory(sweeps, n, e.toBssid, e.toChannel)
  {
    var nets, stas := Retained(NetRounds(sweeps[..n])), Retained(StaRounds(sweeps[..n]));
    EmissionTells(emitted[n], nets, stas, sweeps[n], e);
    i :| MoveAt(e, stas, sweeps[n].stations, i, Added(nets, sweeps[n].networks, UnixMilli(sweeps[n].now)), sweeps[n].now);
    FirstOfSweep(stas, sweeps[n], i);
    RoundsSnoc(sweeps, n);
    RetainedIsLatest(StaRounds(sweeps[..n]), e.mac);
    k, j := LatestExact(StaRounds(sweeps[..n]), e.mac);
    ChannelIsLatest(sweeps, n, e.fromBssid, e.fromChannel);
    ChannelIsLatest(sweeps, n, e.toBssid, e.toChannel);
  }

  /** And a disconnect tells of the station's last sighting, ten minutes old or more
      by then. */
  lemma LeaveTellsHistory(sweeps: seq<Sweep>, emitted: seq<seq<RoamEvent>>, n: nat, e: RoamEvent) returns (k: nat, j: nat)
    requires Emitted(sweeps, emitted) && InTimeOrder(sweeps) && n < |sweeps|
    requires e in emitted[n] && e.toBssid == ""
    ensures LastSighting(StaRounds(sweeps[..n + 1]), e.mac, k, j)
    ensures var s := sweeps[k].stations[j];
            && s.key == e.mac && e.fromBssid == s.info.bssid && e.fromRssi == s.info.rssi && e.toRssi == 0
            && e.detectedAtMs == UnixMilli(sweeps[n].now)
            && exists ms :: MadeAt(s, sweeps[k].now, ms) && ms < e.detectedAtMs - 600_000
  {
    var nets, stas := Retained(NetRounds(sweeps[..n])), Retained(StaRounds(sweeps[..n]));
    EmissionTells(emitted[n], nets, stas, sweeps[n], e);
    var heard := Heard(stas, sweeps[n]);
    var mac :| mac in heard && TellsLeave(e, heard[mac], Merged(nets, sweeps[n].networks, sweeps[n].now), sweeps[n].now);
    RoundsSnoc(sweeps, n);
    HeardIsLatest(StaRounds(sweeps[..n]), Round(sweeps[n].stations, sweeps[n].now), mac);
    k, j := LatestExact(StaRounds(sweeps[..n + 1]), mac);
    assert MadeAt(sweeps[k].stations[j], sweeps[k].now, heard[mac].lastSeenMs);
  }

  /** Before a station's one sighting in a sweep the map is as the sweep found it. */
  lemma FirstOfSweep(stas: map<string, Station>, sweep: Sweep, i: nat)
    requires DistinctStations(sweep) && i < |sweep.stations|
    ensures var before, mac := Added(stas, sweep.stations[..i], UnixMilli(sweep.now)), sweep.stations[i].key;
            (mac in before <==> mac in stas) && (mac in stas ==> before[mac] == stas[mac])
  {
    var s := sweep.stations[i];
    LastHeardKey(sweep.stations[..i], s.key, UnixMilli(sweep.now));
    AddedExact(stas, sweep.stations[..i], UnixMilli(sweep.now), s.key);
  }
}
