# net-lama: a verified model of the fleet monitor's stateful logic

net-lama runs network tests on agents, collects the results on a server and
raises alerts on them. This project models the parts that carry state or parse
bytes, and proves what they promise over every input and every run:

| module | what it models |
|---|---|
| `RouteChange` | the baseline over the last 20 traceroute runs, the wildcard comparison, the verdict, and the ingest step over the bounded tables |
| `Alerts` | the hysteresis machine, the sparse map that runs one instance per rule, agent and subject, and the alerts table |
| `AlertDelivery` | the same from results to alerts: every metric, operator and clear threshold |
| `WlanRetention`, `WlanSweep` | ten-minute retention of WLAN sightings, roam and disconnect events, and the choice of channels for the next sweep |
| `WlanEvents` | what the roam and disconnect events say, in terms of the sightings |
| `RoamingReport` | dwell times, roam classes, ping-pong and sticky clients |
| `AsnTable` | prefix ranges, merging, the 12-byte record codec and the lookup |
| `Rsn`, `Beacon` | 802.11 element parsing |
| `Traceroute`, `Checksum` | round-trip statistics, one TTL's probes, the TTL loop with its stall scan, and the ICMP echo packet |
| `Registry`, `Reflector`, `History`, `Logs`, `Throttle` | the connection registry, reflector reconciliation, insert-and-prune tables, the log scopes and the login throttle |
| `Sequences`, `Sorting` | shared vocabulary; `sort.Slice` as a sort that may order ties in any way |

Loops and objects of the program are methods and classes, each proved equal to a
specification function; the theorems are about those functions and about whole
runs of them. A run is a sequence of events, read from its end, so every
statement about a run holds after every prefix of it.

## Assumptions

* One result is evaluated at a time, and the clock of a run never goes back
  where a statement asks for it (`Monotone`).
* A rule id stands for one rule over the whole run, its counts are at least one
  (internal/api/alerts.go:81-86), and rule and agent ids contain no `|`: they are
  hex strings (internal/store/store.go:401-404).
* The stations of one sweep have different MACs, because the probe collects them
  in a map keyed by MAC (internal/probe/wlansense.go:368).
* Store calls may fail without writing; which ones do is part of the event. The
  table invariant, the notification discipline and `FiringUnderFailures` hold
  for all runs; `FiringMatchesWindows` is about keys none of whose own calls fail.

## Where the code and its comments disagree

The model follows the code.

* internal/server/pathchange.go:12 and 131 speak of the previous run; the code
  compares with a window of 20 stored rows, and rows that do not decode to hops
  use up a slot (internal/store/pathchanges.go:150-168).
* internal/server/pathchange.go:162-164 says the first appearance of a new
  address is reported. Only the first contradicting TTL is looked at.
  `NewAddressCanBeMissed` and `SilentSlotHidesNewAddress` are runs where a new
  address goes unreported; `NewAddressReportedIff` says, for every TTL, exactly
  when the change recorded is the one at that TTL.
* internal/asn/asn.go:103-105 says a lookup fails only for addresses that are not
  in the table. With a nested prefix it also fails for addresses of the outer
  prefix past the inner one (`NestedPrefixHidesOuter`). `CompleteAtEveryStopIff`
  gives the exact condition: no range reaches into a gap after a later one.
* internal/api/throttle.go:15-17 speaks of ten failures inside one window. The
  window is fixed to its first failure, so nineteen can fall into one window's
  length, and no more (`ThrottleBound`, `BoundIsAttained`). `LimitKeptIff` says
  when ten is kept: iff at the start of the interval the key has no live entry, or
  one that is used up.
* internal/agent/scheduler.go:608 mentions stations; only access points choose
  channels. Line 582 mentions either BSSID; only the station's own is consulted.
* internal/store/wlanroaming.go:45-47 speaks of a sibling access point; the
  strongest one of the SSID may be the client's own. `StickyWithoutSibling` is such
  a client; `SticksExact` says what sticky means and so when the readings agree.

## Model

| member | source | states |
|---|---|---|
| RouteChange.PathSignature | internal/server/pathchange.go:32-47 | The hop addresses with silence as "*", without the destination of a run that arrived |
| RouteChange.SignatureExact | internal/server/pathchange.go:32-47 | The signature hop by hop and its length |
| RouteChange.TracerouteHosts | internal/store/pathchanges.go:195-223 | A stored payload yields the same signature; malformed or hopless payloads yield none |
| RouteChange.TracerouteBaselineFor | internal/store/pathchanges.go:149-185 | The in-place fold over the rows equals the per-TTL baseline of the window |
| RouteChange.FoldRun | internal/store/pathchanges.go:170-183 | One run's hops turn the baseline of a window into that of the window with the run added |
| RouteChange.FoldHop | internal/store/pathchanges.go:171-182 | Slots grow up to the TTL, a silent slot is filled, an answer is remembered, other slots stay |
| RouteChange.BaselineFold | internal/store/pathchanges.go:117-133 | For every window: each host is the newest answer and "*" iff nothing was seen, each seen set is exactly the answers at that TTL, the length set is exactly the run lengths and the list is as long as the longest |
| RouteChange.SilenceErasesNothing | internal/store/pathchanges.go:115-121 | A run silent at a TTL, anywhere in the window, leaves the newest answer and the seen set there as they were |
| RouteChange.DiffSignatures | internal/server/pathchange.go:52-72 | The comparison loop computes the difference function |
| RouteChange.DiffExact | internal/server/pathchange.go:49-72 | The reported difference is the first contradiction with "*" matching anything, else the end of the shorter list, else none |
| RouteChange.DetectPathChange | internal/server/pathchange.go:138-181 | The early returns and suppressions equal the verdict function over the window's baseline |
| RouteChange.ExactVerdict | internal/server/pathchange.go:138-181 | A run is marked iff its first clash with the window's newest answers names an address never seen at that TTL, or it clashes nowhere and no run was as long |
| RouteChange.NewAddressCanBeMissed | internal/server/pathchange.go:52-62 | Concrete window and run where a never-seen address goes unreported |
| RouteChange.NewAddressReportedIff | internal/server/pathchange.go:155-181 | For every TTL of a run against a non-empty baseline: the recorded change is the one at that TTL iff it is the run's first clash and its address was never seen there, or nothing clashes and it is the first TTL past every run of the window |
| RouteChange.SilentSlotHidesNewAddress | internal/server/pathchange.go:57-60 | Concrete window whose silent slot hides a never-seen address |
| RouteChange.RepeatIsQuiet | internal/server/pathchange.go:159-179 | A run that repeats any run of the window is never marked |
| RouteChange.Monitor.HandleResult | internal/server/server.go:559-600 | One result: the verdict is read before the result is stored, the event and the row go into their bounded tables, failed calls write nothing |
| RouteChange.FindingExact | internal/server/server.go:574-577 | An arrival is marked iff it belongs to a test, its baseline could be read and says anything, and it is rerouted with respect to the rows stored before it |
| RouteChange.NewestStored | internal/server/server.go:579-600 | Right after a result was stored its own hops, arrival flag and type are the newest row of the probe |
| RouteChange.StoredRunIsBaseline | internal/server/server.go:574-600 | A stored traceroute arriving again right after it is no change, whatever was there before |
| RouteChange.ResultsHeld | internal/store/agents.go:331-353 | Without failures a probe has exactly its last 5000 results in the table |
| RouteChange.EventMatchesSignatures | internal/server/pathchange.go:192-198 | A recorded event's hops are those of its two signatures at its TTL, the old one being the window's newest answers |
| RouteChange.ChangeIsRecorded | internal/store/pathchanges.go:38-54 | A change found and stored is the newest of at most 500 events of the probe |
| RouteChange.PrunedWindowIsFullWindow | internal/store/pathchanges.go:144-153 | For a traceroute test the window read from the pruned table is the window of the full history |
| RouteChange.RepeatFindsNothing | internal/server/pathchange.go:138-181 | After any run of the server, a result repeating one of the rows read as its baseline finds no change |
| RouteChange.RepeatsInFullHistory | internal/store/pathchanges.go:144-153 | For a probe that only ran traceroutes a run repeats a row of its baseline iff one of the last 20 results of the probe to get into the table took the same path |
| RouteChange.QuietForever | internal/server/pathchange.go:159-179 | Once every run of a probe repeats one of the rows its baseline is read from, no event is recorded for the probe again, whatever else is stored for it and whatever other probes do |
| RouteChange.Itoa | internal/server/pathchange.go:117-129 | The ten-byte buffer never underruns and holds the decimal digits of every uint32 |
| RouteChange.DecimalRoundTrip | internal/server/pathchange.go:117-129 | Reading the digits back gives the number, without a leading zero |
| Alerts.DecideExact | internal/server/alerts.go:80-106 | The counters are the trailing breach run and the trailing clear run modulo the clear count; the action is read off those runs |
| Alerts.ActionMeansWindow | internal/server/alerts.go:80-106 | A fire is called for exactly where a window of breaches ends, a resolve only where a window of clear samples ends |
| Alerts.LastWindowExact | internal/server/alerts.go:84-103 | The last window of a kind is the greatest position where that many samples of the kind end |
| Alerts.FiringExact | internal/server/alerts.go:80-106 | Over any stream the alert fires iff the last window of breaches ends after the last window of clear samples |
| Alerts.JoinedInjective | internal/server/alerts.go:38 | The joined map key names one rule, agent and subject |
| Alerts.Server.FireAlert | internal/server/alerts.go:132-146 | Inserts one firing row and sends one notice iff none is active and both store calls succeed |
| Alerts.Server.ResolveAlert | internal/server/alerts.go:148-161 | Resolves the active row and sends its firing value iff there is one and both store calls succeed |
| Alerts.Server.EvaluateAlerts | internal/server/alerts.go:19-56 | One result runs one step per applicable rule, in rule order, on map, table and notices |
| Alerts.Server.TakeSample | internal/server/alerts.go:40-54 | One sample: the entry is stored or deleted, then the action is carried out |
| Alerts.StatesExact | internal/server/alerts.go:38-47 | For every interleaving, a key's entry is what its own projection leads to, and no zero entry is kept |
| Alerts.ActiveAlertExact | internal/store/alerts.go:151-165 | The query finds a firing row of the key iff there is one |
| Alerts.FiredActive | internal/store/alerts.go:167-177 | Firing adds an active alert to its own key only, and only where none was |
| Alerts.ResolvedExact | internal/store/alerts.go:179-183 | Resolving keeps the table invariant and ends the active alert of its own key only |
| Alerts.RunKeepsTable | internal/store/alerts.go:151-183 | Over every run ids ascend and a key has at most one firing row, store failures included |
| Alerts.FiringMatchesWindows | internal/server/alerts.go:33-106 | For every interleaving and every key whose own store calls succeed, an alert is firing iff in the key's projection the last breach window ends after the last clear window |
| Alerts.FiringUnderFailures | internal/server/alerts.go:33-161 | With failing store calls, for every key and interleaving an alert is firing iff among the key's own samples a fire was carried out and no resolve after it |
| AlertDelivery.KindIsMeant | internal/server/alerts.go:111-187 | A rule applies to a result, is breached by it and is cleared by it exactly as its metric, operator and thresholds say |
| AlertDelivery.EventsProjection | internal/server/alerts.go:33-47 | A result gives a rule, agent and subject one sample if it is of them and the rule watches it and applies, else none |
| AlertDelivery.DeliveredIsRun | internal/server/alerts.go:19-56 | Results evaluated one after the other are one run of samples |
| AlertDelivery.FiringOverResults | internal/server/alerts.go:19-187 | After any results of any agents, an alert is firing iff among the results its rule saw ForCount bad ones in a row end after every ClearCount recovered ones in a row |
| AlertDelivery.FiringAbove | internal/server/alerts.go:80-187 | The same in numbers for a rule above a threshold with a clear threshold |
| Alerts.NotificationDiscipline | internal/server/alerts.go:132-161 | From any counters, with failing store calls, each key's notices alternate firing and resolved, a resolved repeats its firing value, and a row is firing iff the last notice said so |
| WlanRetention.WlanPassiveState.MergeRetained | internal/agent/scheduler.go:522-579 | The retained maps after a sweep, the lists sorted by key whatever the map order, and the events by time |
| WlanRetention.WlanPassiveState.HearNetworks | internal/agent/scheduler.go:532-537 | Heard access points are stamped and overwrite their entries |
| WlanRetention.WlanPassiveState.HearStations | internal/agent/scheduler.go:539-549 | Heard stations are stamped, overwrite their entries and report their moves |
| WlanRetention.SweepOut | internal/agent/scheduler.go:551-558 | Walking the map in any order while deleting keeps exactly the entries at or after the cutoff |
| WlanRetention.DropStations | internal/agent/scheduler.go:559-574 | The same for stations, with one disconnect per associated station dropped |
| WlanRetention.SortByKey | internal/agent/scheduler.go:575-576 | The list is the map's values in strictly ascending key order |
| WlanRetention.ListUnique | internal/agent/scheduler.go:575-576 | That list does not depend on the order the map was walked in |
| WlanRetention.RetentionExact | internal/agent/scheduler.go:522-558 | After any run with non-decreasing time the map holds exactly the keys whose most recent sighting is at or after the cutoff, with that sighting |
| WlanRetention.OneDisconnectPerLeaver | internal/agent/scheduler.go:559-574 | A station leaving the map with an associated BSSID is reported by exactly one disconnect, and no other is |
| WlanRetention.SweepTrail | internal/agent/scheduler.go:539-577 | A sweep's events of one station are at most one roam, then at most one disconnect, however ties were sorted |
| WlanRetention.ChainKeptIff | internal/agent/scheduler.go:539-577 | A chain of a station's events survives every next sweep, blank sightings included, iff it is empty, ends in a disconnect, or the map still has the station where the last event left it |
| WlanRetention.ChainKeptByFreshIff | internal/agent/scheduler.go:539-577 | When the next sweep hears nothing stale, as the probe stamps on arrival, the chain survives iff it is empty, ends in a disconnect, or the map has the station absent, blank or where the last event left it |
| WlanRetention.SomeEmission | internal/agent/scheduler.go:539-577 | Every sweep on every state has an emission, so the statements about emissions are not empty |
| WlanRetention.RoamChain | internal/agent/scheduler.go:539-577 | Over every run, for a station never sighted with an empty BSSID each event starts where the previous ended unless that was a disconnect, and the map holds where the last one led |
| WlanRetention.BlankSightingBreaksChain | internal/agent/scheduler.go:545-548 | A whole run from empty maps in which a blank sighting breaks the chain; ChainKeptIff is the exact condition |
| WlanEvents.CutoffExact | internal/agent/scheduler.go:517-524 | The cutoff is 600000 ms before the sweep, in rounded-down milliseconds |
| WlanEvents.LatestExact | internal/agent/scheduler.go:532-549 | What is retained of a key is its last sighting in the whole history, unchanged but for a missing time |
| WlanEvents.RoamsTell | internal/agent/scheduler.go:539-549 | Every roam tells of a sighting: stations, access points, signals, channels, network, time and gap |
| WlanEvents.MovesAreTold | internal/agent/scheduler.go:545-547 | Every sighting at another access point is reported by such a roam |
| WlanEvents.DisconnectTells | internal/agent/scheduler.go:561-570 | A disconnect tells of the station that aged out, field by field |
| WlanEvents.EmissionTells | internal/agent/scheduler.go:539-577 | Everything a sweep emits is one or the other |
| WlanEvents.RoamTellsHistory | internal/agent/scheduler.go:539-549 | Over whole runs a roam starts where and with the signal with which the station was last sighted before, and names the channels of the access points' last sightings |
| WlanEvents.LeaveTellsHistory | internal/agent/scheduler.go:559-574 | Over whole runs a disconnect tells of the station's last sighting, more than ten minutes before |
| WlanSweep.ExtractInterestingChannels | internal/agent/scheduler.go:608-623 | Exactly the known channels of the retained access points, strictly ascending |
| WlanSweep.CompleteSweep | internal/agent/scheduler.go:398-413 | A completed sweep's whole effect on the state, after which every retained access point is watched |
| WlanSweep.CompletedStaysWatched | internal/agent/scheduler.go:406-413 | Whatever a sweep hears, including nothing, retained access points stay on watched channels |
| WlanSweep.NarrowedSweepMissesNoRecent | internal/agent/scheduler.go:363-418 | After any sequence of runs of a test, failed ones included, a narrowed sweep covers the channel of every access point whose latest sighting in the history is at or after the cutoff, and a full sweep was completed less than ten minutes before |
| WlanSweep.PassesReach | internal/agent/scheduler.go:398-418 | After any sequence of runs the state holds what retention makes of the sweeps that came back, all of it watched |
| WlanSweep.LastFullPass | internal/agent/scheduler.go:401-403 | The recorded full sweep is one that was planned in full and came back |
| WlanSweep.NarrowedExactly | internal/agent/scheduler.go:369-381 | After any sequence of runs a sweep is narrowed iff channels are watched and the last full sweep was dated less than ten minutes ago |
| WlanSweep.Agent.ChooseChannels | internal/agent/scheduler.go:363-381 | Full or narrowed as planned from the test's state |
| WlanSweep.Agent.FinishSweep | internal/agent/scheduler.go:398-418 | The test's state, created on first use, takes the sweep in; other tests keep theirs |
| WlanSweep.Agent.RunWlanPassive | internal/agent/scheduler.go:363-419 | A whole run keeps every test's state watched; a failed sweep changes nothing |
| RoamingReport.ClassifyExact | internal/store/wlanroaming.go:163-182 | For all int32 signals: good, suboptimal and bad by the gain in dB where the difference fits an int32, and the opposite classes exactly where it wraps |
| RoamingReport.EventLog | internal/store/wlanroaming.go:142-185 | The backward pass gives each event the gap to its client's next event, newest first, and counts the classes |
| RoamingReport.DwellTelescopes | internal/store/wlanroaming.go:154-161 | Per client, dwell times plus gaps after disconnects sum to now minus the first event |
| RoamingReport.InnerGapsAreNotNegative | internal/store/wlanroaming.go:109-161 | On the sorted log only a client's last gap can be negative |
| RoamingReport.CountsAddUp | internal/store/wlanroaming.go:163-182 | Good, suboptimal, bad, disconnect and unclassified add up to the events |
| RoamingReport.CountPingPong | internal/store/wlanroaming.go:122-140 | The number of clients that went back to where they came from within five minutes |
| RoamingReport.PingPongExact | internal/store/wlanroaming.go:41-43 | Exactly the clients with two consecutive events that take them away from an access point and back within five minutes |
| RoamingReport.HasBounce | internal/store/wlanroaming.go:132-137 | Finds a bounce among consecutive events of a client iff there is one |
| RoamingReport.BestRssi | internal/store/wlanroaming.go:111-120 | The strongest signal of each named network in the latest sweep |
| RoamingReport.CountSticky | internal/store/wlanroaming.go:187-210 | The number of clients whose newest entry is sticky |
| RoamingReport.StickyExact | internal/store/wlanroaming.go:187-210 | A client counts iff its first entry in the newest-first log is sticky |
| RoamingReport.SticksExact | internal/store/wlanroaming.go:199-208 | An entry is sticky iff it is associated, of a named network, has dwelled five minutes, and a sibling or its own access point was heard 10 dB or more above its signal |
| RoamingReport.StickyWithoutSibling | internal/store/wlanroaming.go:45-47 | A sticky client with no other access point in the air |
| RoamingReport.StrongestUnique | internal/store/wlanroaming.go:111-120 | The strongest signals are determined by the sweep, whatever its order |
| RoamingReport.WlanRoaming | internal/store/wlanroaming.go:109-213 | The whole report for every multiset of events: its log is a time-sorted permutation read backwards, with classes, gaps and all counters exact for it |
| AsnTable.PrefixRangeExact | internal/asn/gen/main.go:85-88 | With uint32 wrap, /0 included, the range is exactly the addresses sharing the prefix |
| AsnTable.Merge | internal/asn/gen/main.go:95-107 | The loop computes the merged table |
| AsnTable.TakeRange | internal/asn/gen/main.go:98-105 | One round widens the last range in place or appends |
| AsnTable.MergePreservesCoverage | internal/asn/gen/main.go:93-107 | For every start-sorted table merging keeps exactly which address is announced by which AS and leaves no mergeable neighbours |
| AsnTable.MergeIdempotent | internal/asn/gen/main.go:95-107 | Merging a merged table changes nothing |
| AsnTable.MergedNeighboursApart | internal/asn/gen/main.go:98 | Neighbours of one AS in a merged table neither overlap nor touch, except behind a range ending at the last address |
| AsnTable.PutUint32 | internal/asn/gen/main.go:157-159 | Four big-endian bytes in place, the rest of the buffer untouched |
| AsnTable.WriteRanges | internal/asn/gen/main.go:147-165 | One reused buffer writes every record in order |
| AsnTable.Load | internal/asn/asn.go:66-80 | The record loop decodes whole records and ignores an incomplete one |
| AsnTable.CodecRoundTrip | internal/asn/asn.go:71-78 | Decoding an encoded table followed by a partial record gives the table back |
| AsnTable.RecordLayout | internal/asn/gen/main.go:156-160 | The file is twelve bytes a record: start, end and AS, each from its highest byte on |
| AsnTable.Lookup | internal/asn/asn.go:106-128 | The binary search answers as its specification |
| AsnTable.SearchStops | internal/asn/asn.go:119 | On any table the range found ends at or after the address and the one before it does not |
| AsnTable.LookupSound | internal/asn/asn.go:117-127 | On any table, an AS that is returned did announce the address |
| AsnTable.LookupAnswers | internal/asn/asn.go:117-127 | On any table the answer is what is on file about an AS that announced the address, or its number alone |
| AsnTable.LookupComplete | internal/asn/asn.go:117-127 | With ascending starts and no range reaching into a later gap an address is found iff it is announced |
| AsnTable.CompleteAtEveryStopIff | internal/asn/asn.go:117-122 | For every start-sorted table: each announced address is found wherever a search may stop iff no range reaches into a gap after a later one |
| AsnTable.EndsNeedNotAscend | internal/asn/asn.go:117-122 | A merged table with a nested prefix that meets that condition though its ends do not ascend |
| AsnTable.MergeKeepsNoGap | internal/asn/gen/main.go:95-107 | Merging opens no gap that hides a range |
| AsnTable.CompleteOnEverySliceIff | internal/asn/asn.go:117-122 | The stronger property that every contiguous part of a start-sorted table is complete holds iff its ends ascend |
| AsnTable.NestedPrefixHidesOuter | internal/asn/asn.go:119-122 | A merged table with a nested prefix where an announced address is not found |
| AsnTable.PipelineComplete | internal/asn/gen/main.go:37-52 | Lookup over decode, encode and merge finds exactly the announced addresses of a table with no range reaching into a later gap, and answers what is on file about an announcing AS |
| AsnTable.PipelineIsLinearScan | internal/asn/gen/main.go:37-52 | For disjoint ranges that pipeline answers what is on file about the AS a linear scan of the original table finds |
| Rsn.ParseRsn | internal/probe/wlansense.go:665-694 | The parser computes its specification and reads no byte out of range |
| Rsn.ReadSuites | internal/probe/wlansense.go:676-679 | One counted suite loop |
| Rsn.SuitesExact | internal/probe/wlansense.go:676-679 | The fourth byte of each suite, up to the count or the last suite that fits |
| Rsn.ParseEncoded | internal/probe/wlansense.go:662-694 | Parsing an encoded element with up to 65535 suites of either sort returns suites, group and capabilities |
| Rsn.TruncationGivesPrefixes | internal/probe/wlansense.go:665-694 | On every truncation the cipher and AKM lists are prefixes of the true ones |
| Beacon.SecurityLabel | internal/probe/wlansense.go:747-787 | The label as a function of which AKM types occur |
| Beacon.LabelExact | internal/probe/wlansense.go:747-787 | Each of the ten labels iff the frame's protection and keys are the ones it stands for |
| Beacon.StandardsExact | internal/probe/wlansense.go:590-614 | Exactly the generations and amendments present are named, in order |
| Beacon.JoinedExact | internal/probe/wlansense.go:603-615 | Joining adds one separator between parts |
| Beacon.Walk | internal/probe/wlansense.go:481-585 | The element loop ends, reads in range and visits the elements found in order |
| Beacon.ParseBeaconBody | internal/probe/wlansense.go:464-620 | The whole body: fixed part, walk, every derived field; nothing from a short body |
| Beacon.WalkVisitsEncoded | internal/probe/wlansense.go:481-486 | On encoded elements and a truncated tail it visits exactly those elements |
| Beacon.WalkCoversBytes | internal/probe/wlansense.go:481-486 | Every byte string is the encoding of the elements found and a truncated tail |
| Beacon.VisitedReflects | internal/probe/wlansense.go:487-583 | Security, generation and roaming flags and the width say exactly which elements are present |
| Beacon.OrderDoesNotMatter | internal/probe/wlansense.go:481-619 | Permuting or repeating elements leaves Security, Standards, Roaming, WPS and WidthMHz unchanged |
| Beacon.PermutedBodies | internal/probe/wlansense.go:464-619 | The same for whole frame bodies with permuted elements, each with any truncated tail |
| Beacon.LastNetworkWins | internal/probe/wlansense.go:488-511 | SSID, DTIM period, country and load come from the last usable element |
| Beacon.LastSecurityWins | internal/probe/wlansense.go:519-534 | So do the group cipher and the management-frame protection |
| Beacon.NothingFromNothing | internal/probe/wlansense.go:488-511 | A network field no element carries keeps its zero value |
| Beacon.NoSecurityFromNothing | internal/probe/wlansense.go:519-534 | So do the group cipher and the protection |
| Beacon.TakeRates | internal/probe/wlansense.go:492-556 | The supported-rate and stream loops of one element |
| Beacon.LegacyIsFastest | internal/probe/wlansense.go:492-497 | The legacy rate is the greatest that any rates element of the frame advertises, in whatever order |
| Beacon.HighestExact | internal/probe/wlansense.go:514-518 | A stream count is the highest stream set in the mask |
| Beacon.LastStreamsWin | internal/probe/wlansense.go:512-556 | Stream counts come from the last capabilities element that names any stream |
| Beacon.EstimateMaxRate | internal/probe/wlansense.go:627-651 | The estimate from generation, width and streams, the legacy rate without one |
| Beacon.Clamp | internal/probe/wlansense.go:640-646 | Walking the table in any order gives the greatest rate at or below the width |
| Beacon.RateGrows | internal/probe/wlansense.go:627-651 | A wider channel or more streams never lower the estimate of a generation |
| Beacon.MaxRateExact | internal/probe/wlansense.go:627-651 | Streams times the greatest known rate at or below the width, no stream counting as one, the legacy rate without a generation |
| Beacon.SecurityDetail | internal/probe/wlansense.go:710-744 | The names of AKMs and ciphers, joined; empty without an AKM |
| Beacon.Names | internal/probe/wlansense.go:722-735 | Suite names in order of first occurrence |
| Beacon.FirstNamesExact | internal/probe/wlansense.go:722-735 | Every suite that occurs is named, and none twice |
| Checksum.FoldedExact | internal/probe/traceroute_linux.go:274-276 | Folding stays below 2^16 and keeps the sum modulo 65535 (section 1 of RFC 1071) |
| Checksum.Fold | internal/probe/traceroute_linux.go:274-276 | The carry loop ends with the folded sum, without uint32 overflow |
| Checksum.SumWords | internal/probe/traceroute_linux.go:270-273 | The word sum of the packet, without overflow |
| Checksum.PutUint16 | internal/probe/traceroute_linux.go:266-277 | Two big-endian bytes in place, the rest untouched |
| Checksum.IcmpEcho | internal/probe/traceroute_linux.go:263-279 | The packet built in place |
| Checksum.EchoVerifies | internal/probe/traceroute_linux.go:263-279 | For every id and sequence number the ones' complement sum of the finished packet is 0xFFFF |
| Checksum.EchoFields | internal/probe/traceroute_linux.go:264-268 | Type, code, id, sequence number and payload where a receiver looks for them |
| Traceroute.RttStats | internal/probe/traceroute.go:187-210 | Least, greatest and mean sample and the mean squared deviation, zeros for none |
| Traceroute.RttBounds | internal/probe/traceroute.go:184-210 | best <= avg <= worst and jitter^2 <= (worst-avg)(avg-best) <= ((worst-best)/2)^2 |
| Traceroute.Collect | internal/probe/traceroute.go:149-170 | Samples, responder, arrival and verdict of the replies |
| Traceroute.ProbeTtl | internal/probe/traceroute.go:146-182 | The hop aggregates exactly those replies |
| Traceroute.HostExact | internal/probe/traceroute.go:160-178 | The host is the sender named by the first telling reply, the destination if that is unusable and it was reached, else empty |
| Traceroute.NobodySpoke | internal/probe/traceroute.go:172-178 | No telling reply, no host |
| Traceroute.HopBounds | internal/probe/traceroute.go:179 | Loss lies in [0,100] and is 100 iff nothing came back; a hop with a host did answer |
| Traceroute.LossExact | internal/probe/traceroute.go:179 | The loss is exactly the unanswered share of all probes in percent |
| Traceroute.AnsweredInOrder | internal/probe/traceroute.go:156-159 | The samples are the answers' times in order |
| Traceroute.AnsweredCount | internal/probe/traceroute.go:156-159 | There are as many samples as answers |
| Traceroute.VerdictExact | internal/probe/traceroute.go:163-165 | The verdict is the destination's last word, empty while it was silent |
| Traceroute.RunTrace | internal/probe/traceroute.go:105-137 | Hops are TTL 1..n without gaps up to the destination or the limit; an ended context yields no trace |
| Traceroute.StallScan | internal/probe/traceroute.go:127-133 | The greatest responding TTL and its mean |
| Traceroute.FailureHopIsLastAnswer | internal/probe/traceroute.go:125-133 | On a stalled trace FailureHop is the greatest TTL anyone answered at with an address |
| Registry.RegistrySafe | internal/server/server.go:329-359 | In every order of starts and ends each push channel is closed at most once, never while registered, and the newest live connection of an agent is the registered one |
| Registry.ClosedExactly | internal/server/server.go:329-334 | The closed channels are exactly those of connections whose agent connected again while they were registered |
| Registry.ConnectSafe | internal/server/server.go:329-334 | A connecting stream keeps that invariant |
| Registry.EndSafe | internal/server/server.go:351-356 | An ending stream keeps that invariant |
| Registry.OlderEndIsHarmless | internal/server/server.go:353-355 | An older stream ending unregisters nobody |
| Registry.Server.StreamStarts | internal/server/server.go:329-334 | Registers the connection and closes a replaced, still open channel |
| Registry.Server.StreamEnds | internal/server/server.go:351-356 | Unregisters the agent only if this connection is the registered one |
| Reflector.RunConsistent | internal/agent/agent.go:145-190 | Over every sequence of pushes the cancel is stored iff the port is nonzero iff exactly one reflector runs |
| Reflector.LastConfigDecides | internal/agent/agent.go:145-190 | A successful reconcile leaves what the last push asks for, repeating it is a no-op, unparsable CIDRs change nothing |
| Reflector.ChangeRestarts | internal/agent/agent.go:166-189 | Another port or list replaces the reflector by a new one, and nothing runs or is stored if that cannot listen |
| Reflector.Agent.Reconcile | internal/agent/agent.go:145-190 | One push on the agent's fields |
| Reflector.SameCidrs | internal/agent/agent.go:192-202 | True iff both lists print the same |
| History.BoundedTable.Add | internal/store/agents.go:331-353 | Insert, then delete all but the newest rows of the scope; either statement may fail |
| Logs.LogStore.SetLogHistory | internal/store/logs.go:23-30 | A positive number replaces the limit, others are ignored |
| Logs.LogStore.InsertLog | internal/store/logs.go:36-59 | Which scope a line belongs to and which one its delete names |
| Logs.LogsBounded | internal/store/logs.go:32-59 | After any lines from any sources each agent has exactly its own last n, the server its last n, and no line of another source is ever deleted |
| History.PruneKeepsNewest | internal/store/agents.go:347-351 | The delete keeps exactly the newest rows of its scope and every row of the others |
| History.HistoryIsNewestWrites | internal/store/agents.go:331-353 | After any mix of scopes, limits and failures a scope holds precisely its newest writes, and ids ascend |
| History.BoundedHistory | internal/store/logs.go:32-59 | With one limit and no failures a scope holds exactly its last N writes |
| History.WindowUnaffectedByPruning | internal/store/pathchanges.go:38-54 | A reader of the newest w rows sees the unpruned history as long as no limit is below w |
| Throttle.Throttle.Allow | internal/api/throttle.go:39-51 | Prunes stale entries in any map order and answers from what is left |
| Throttle.Throttle.Fail | internal/api/throttle.go:55-67 | Counts the failure in its window, opening a new one when stale |
| Throttle.Throttle.Success | internal/api/throttle.go:70-74 | Forgets the key |
| Throttle.AllowedExactly | internal/api/throttle.go:49-50 | An attempt is allowed iff fewer than ten failures are held against the key |
| Throttle.TenthFailureTrips | internal/api/throttle.go:53-67 | A failure is reported iff nine were held, and then nothing is allowed until the window has passed |
| Throttle.SuccessClears | internal/api/throttle.go:69-74 | A success gives the key its whole budget back and touches no other |
| Throttle.PruningIsUnobservable | internal/api/throttle.go:44-48 | Over every run the answers are those of a throttle that never prunes |
| Throttle.ThrottleBound | internal/api/throttle.go:39-67 | A key whose failures were all allowed fails at most 19 times in any interval of one window |
| Throttle.BoundIsAttained | internal/api/throttle.go:39-67 | Nineteen allowed failures within one window do occur |
| Throttle.LimitKeptIff | internal/api/throttle.go:39-67 | After any guarded run, every continuation keeps the interval of one window from a to ten failures iff at a the key has no live entry or a used-up one |

## Left out

- Alerts.FiringMatchesWindows: for keys without failing store calls, because a failed resolve starts its count again; FiringUnderFailures is the statement for all runs. Editing a rule in the middle of a run is not modelled.
- AsnTable.LookupComplete: the condition is exact for every place a search of the table may stop (CompleteAtEveryStopIff) and sufficient for the one place the binary search does stop at, which also depends on the indices it probes.
- Traceroute.RttStats: samples are reals, so rounding, infinities and NaN do not occur, and jitter is kept as its square.
- Traceroute.FailureHopIsLastAnswer: asks for a non-empty destination address, which the address resolved before the loop always has.
- Rsn.TruncationGivesPrefixes: says nothing about the capabilities of a truncated element, where left-over AKM bytes can be read as capabilities.
- History.BoundedTable.Add: the table is a sequence in id order, and one statement is one atomic step.
- Throttle.Throttle.Fail: entries are map values, while the program keeps pointers to them.
- Registry.RegistrySafe: sends on a push channel are not modelled; the configuration push sends after releasing the lock.
- Reflector.RunConsistent: cancellation of the root context and the sockets behind a listener; the outcome of parsing a CIDR list is an input.
- RouteChange.Monitor.HandleResult: scope and network labels, times and test names of an event; payload encoding is the identity.
- WlanRetention.WlanPassiveState.MergeRetained: sightings carry only the fields the function reads; the others travel unchanged.
- Beacon.EstimateMaxRate: rates are reals, so rounding does not occur.
- RoamingReport.WlanRoaming: result filters, JSON decoding, and the channel and roam-time columns that are only copied; milliseconds are unbounded integers.
- Integer widths of ids, counters, TTLs and channels, which no input in practice exhausts; a hop limit of 2^32-1 would make the TTL loop wrap.
- The level of the state metric, alert messages and the delivery of notifications; the level is an input.
- Address parsing, the name tables and the text form of the raw routing table; gzip is the identity.
- gRPC, HTTP, SQLite, TLS, SMTP and SNMP, sockets and packet capture, wpa_supplicant and DHCP: foreign input and output, represented by arbitrary inputs.
- Interface selection and demo mode of the passive sweep, reverse DNS, and the other probes.
- Tenant scoping, health levels, reconnect counting, the log ring buffer and reconnect backoff: easy one-branch facts.
- Wall-clock regression and two streams of one agent evaluated at the same time.
