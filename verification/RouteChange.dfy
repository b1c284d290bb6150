/** Route-change detection: the baseline over the last stored traceroute runs,
    the wildcard comparison against it, and the ingest step that ties both to
    the bounded results table. */
module RouteChange {
  import opened Sequences
  import History

  const SILENT := "*"

  /** What json.Unmarshal makes of a stored payload. A result of another kind
      decodes to a trace with no hops. */
  datatype Payload = Malformed | Decoded(reached: bool, hops: seq<string>)

  function Shown(host: string): string {
    if host == "" then SILENT else host
  }

  /** The intermediate hop addresses of a run, silence written as "*" and the
      destination of a run that arrived dropped. */
  function Signature(hops: seq<string>, reached: bool): seq<string> {
    var shown := seq(|hops|, i requires 0 <= i < |hops| => Shown(hops[i]));
    if reached && shown != [] then shown[..|shown| - 1] else shown
  }

  method PathSignature(hops: seq<string>, reached: bool) returns (sig: seq<string>)
    ensures sig == Signature(hops, reached)
  {
    sig := [];
    for k := 0 to |hops|
      invariant |sig| == k && forall i | 0 <= i < k :: sig[i] == Shown(hops[i])
    {
      var host := hops[k];
      if host == "" {
        host := SILENT;
      }
      sig := sig + [host];
    }
    assert sig == seq(|hops|, i requires 0 <= i < |hops| => Shown(hops[i]));
    if reached && |sig| > 0 {
      sig := sig[..|sig| - 1];
    }
  }

  /** The hop list a stored row contributes; None for a row that only uses up
      a slot of the window. */
  function RunHosts(p: Payload): Option<seq<string>> {
    match p
    case Malformed => None
    case Decoded(reached, hops) => if hops == [] then None else Some(Signature(hops, reached))
  }

  method TracerouteHosts(p: Payload) returns (hosts: seq<string>, ok: bool)
    ensures RunHosts(p) == if ok then Some(hosts) else None
  {
    if p.Malformed? || p.hops == [] {
      return [], false;
    }
    hosts := [];
    for k := 0 to |p.hops|
      invariant |hosts| == k && forall i | 0 <= i < k :: hosts[i] == Shown(p.hops[i])
    {
      if p.hops[k] == "" {
        hosts := hosts + [SILENT];
        continue;
      }
      hosts := hosts + [p.hops[k]];
    }
    assert hosts == seq(|p.hops|, i requires 0 <= i < |p.hops| => Shown(p.hops[i]));
    if p.reached {
      hosts := hosts[..|hosts| - 1];
    }
    ok := true;
  }

  /** The signature hop by hop. */
  lemma SignatureExact(hops: seq<string>, reached: bool)
    ensures |Signature(hops, reached)| == if reached && hops != [] then |hops| - 1 else |hops|
    ensures forall i | 0 <= i < |Signature(hops, reached)| :: Signature(hops, reached)[i] == if hops[i] == "" then "*" else hops[i]
  {
  }

  lemma SignatureHasNoEmptyHop(hops: seq<string>, reached: bool)
    ensures "" !in Signature(hops, reached)
  {
  }

  // ---------------------------------------------------------------------
  // The baseline fold. A window lists payloads newest first.
  // ---------------------------------------------------------------------

  datatype Baseline = Baseline(hosts: seq<string>, seen: seq<set<string>>, lengths: set<nat>)

  /** What a run says about the TTL at index i. */
  function Answer(p: Payload, i: nat): string {
    match RunHosts(p)
    case None => SILENT
    case Some(hosts) => if i < |hosts| then hosts[i] else SILENT
  }

  /** The newest answer at a TTL. */
  function Newest(w: seq<Payload>, i: nat): string {
    if w == [] then SILENT
    else
      var earlier := Newest(w[..|w| - 1], i);
      if earlier != SILENT then earlier else Answer(w[|w| - 1], i)
  }

  function SeenAt(w: seq<Payload>, i: nat): set<string> {
    if w == [] then {}
    else
      var h := Answer(w[|w| - 1], i);
      SeenAt(w[..|w| - 1], i) + if h != SILENT then {h} else {}
  }

  function Lengths(w: seq<Payload>): set<nat> {
    if w == [] then {}
    else
      match RunHosts(w[|w| - 1])
      case None => Lengths(w[..|w| - 1])
      case Some(hosts) => Lengths(w[..|w| - 1]) + {|hosts|}
  }

  function Depth(w: seq<Payload>): nat {
    if w == [] then 0
    else
      var d := Depth(w[..|w| - 1]);
      match RunHosts(w[|w| - 1])
      case None => d
      case Some(hosts) => if d < |hosts| then |hosts| else d
  }

  function BaselineOf(w: seq<Payload>): Baseline {
    Baseline(seq(Depth(w), i requires 0 <= i => Newest(w, i)), seq(Depth(w), i requires 0 <= i => SeenAt(w, i)), Lengths(w))
  }

  lemma {:induction false} NothingBeyondDepth(w: seq<Payload>, i: nat)
    requires Depth(w) <= i
    ensures Newest(w, i) == SILENT && SeenAt(w, i) == {}
  {
    if w != [] {
      NothingBeyondDepth(w[..|w| - 1], i);
    }
  }

  lemma WindowSnoc(w: seq<Payload>, p: Payload, i: nat)
    ensures Newest(w + [p], i) == if Newest(w, i) != SILENT then Newest(w, i) else Answer(p, i)
    ensures SeenAt(w + [p], i) == SeenAt(w, i) + if Answer(p, i) != SILENT then {Answer(p, i)} else {}
  {
    assert (w + [p])[..|w|] == w;
  }

  lemma DepthSnoc(w: seq<Payload>, p: Payload)
    ensures match RunHosts(p)
            case None => Depth(w + [p]) == Depth(w) && Lengths(w + [p]) == Lengths(w)
            case Some(hosts) =>
              && Depth(w + [p]) == (if Depth(w) < |hosts| then |hosts| else Depth(w))
              && Lengths(w + [p]) == Lengths(w) + {|hosts|}
  {
    assert (w + [p])[..|w|] == w;
  }

  lemma UnusableRowChangesNothing(w: seq<Payload>, p: Payload)
    requires RunHosts(p).None?
    ensures BaselineOf(w + [p]) == BaselineOf(w)
  {
    DepthSnoc(w, p);
    forall i: nat
      ensures Newest(w + [p], i) == Newest(w, i) && SeenAt(w + [p], i) == SeenAt(w, i)
    {
      WindowSnoc(w, p, i);
    }
  }

  method TracerouteBaselineFor(rows: seq<Payload>) returns (base: Baseline)
    ensures base == BaselineOf(rows)
  {
    var hosts: seq<string>, seen: seq<set<string>>, lengths: set<nat> := [], [], {};
    for k := 0 to |rows|
      invariant Baseline(hosts, seen, lengths) == BaselineOf(rows[..k])
    {
      ghost var w := rows[..k];
      assert rows[..k + 1] == w + [rows[k]];
      var run, ok := TracerouteHosts(rows[k]);
      if !ok {
        UnusableRowChangesNothing(w, rows[k]);
        continue;
      }
      lengths := lengths + {|run|};
      hosts, seen := FoldRun(w, rows[k], run, hosts, seen);
    }
    assert rows[..|rows|] == rows;
    base := Baseline(hosts, seen, lengths);
  }

  /** The inner loop: one run's hops into the per-TTL slots. */
  method FoldRun(ghost w: seq<Payload>, ghost p: Payload, run: seq<string>, hosts0: seq<string>, seen0: seq<set<string>>)
    returns (hosts: seq<string>, seen: seq<set<string>>)
    requires RunHosts(p) == Some(run)
    requires hosts0 == BaselineOf(w).hosts && seen0 == BaselineOf(w).seen
    ensures hosts == BaselineOf(w + [p]).hosts && seen == BaselineOf(w + [p]).seen
    ensures BaselineOf(w + [p]).lengths == BaselineOf(w).lengths + {|run|}
  {
    DepthSnoc(w, p);
    hosts, seen := hosts0, seen0;
    for i := 0 to |run|
      invariant |hosts| == |seen| == if i <= |hosts0| then |hosts0| else i
      invariant HalfFolded(w, p, hosts, seen, i)
    {
      ghost var before, beforeSeen := hosts, seen;
      hosts, seen := FoldHop(hosts, seen, i, run[i]);
      HopFolded(w, p, before, beforeSeen, hosts, seen, i, run[i]);
    }
    AllFolded(w, p, hosts, seen, |run|);
  }

  /** The slots below i are those of the window with p, the others not yet. */
  ghost predicate HalfFolded(w: seq<Payload>, p: Payload, hosts: seq<string>, seen: seq<set<string>>, i: nat) {
    |hosts| == |seen| && forall j: nat | j < |hosts| :: SlotOf(if j < i then w + [p] else w, j, hosts[j], seen[j])
  }

  lemma HopFolded(w: seq<Payload>, p: Payload, hosts0: seq<string>, seen0: seq<set<string>>,
                  hosts: seq<string>, seen: seq<set<string>>, i: nat, h: string)
    requires HalfFolded(w, p, hosts0, seen0, i) && i <= |hosts0| && Depth(w) <= |hosts0| && h == Answer(p, i)
    requires |hosts| == |seen| == if i < |hosts0| then |hosts0| else i + 1
    requires forall j | 0 <= j < |hosts| && j != i :: hosts[j] == hosts0[j] && seen[j] == seen0[j]
    requires hosts[i] == if i < |hosts0| && hosts0[i] != SILENT then hosts0[i] else h
    requires seen[i] == (if i < |seen0| then seen0[i] else {}) + (if h != SILENT then {h} else {})
    ensures HalfFolded(w, p, hosts, seen, i + 1)
  {
    WindowSnoc(w, p, i);
    if i >= |hosts0| {
      NothingBeyondDepth(w, i);
    } else {
      assert SlotOf(w, i, hosts0[i], seen0[i]);
    }
    forall j: nat | j < |hosts|
      ensures SlotOf(if j < i + 1 then w + [p] else w, j, hosts[j], seen[j])
    {
      assert j != i ==> SlotOf(if j < i then w + [p] else w, j, hosts0[j], seen0[j]);
    }
  }

  lemma AllFolded(w: seq<Payload>, p: Payload, hosts: seq<string>, seen: seq<set<string>>, n: nat)
    requires HalfFolded(w, p, hosts, seen, n) && forall j: nat | n <= j :: Answer(p, j) == SILENT
    ensures forall j: nat | j < |hosts| :: SlotOf(w + [p], j, hosts[j], seen[j])
  {
    forall j: nat | j < |hosts|
      ensures SlotOf(w + [p], j, hosts[j], seen[j])
    {
      WindowSnoc(w, p, j);
    }
  }

  ghost predicate SlotOf(w: seq<Payload>, i: nat, host: string, seen: set<string>) {
    host == Newest(w, i) && seen == SeenAt(w, i)
  }

  /** One hop: grow the slots up to it, fill a gap, remember the address. */
  method FoldHop(hosts0: seq<string>, seen0: seq<set<string>>, i: nat, h: string)
    returns (hosts: seq<string>, seen: seq<set<string>>)
    requires |hosts0| == |seen0| && i <= |hosts0|
    ensures |hosts| == |seen| == if i < |hosts0| then |hosts0| else i + 1
    ensures forall j | 0 <= j < |hosts| && j != i :: hosts[j] == hosts0[j] && seen[j] == seen0[j]
    ensures hosts[i] == if i < |hosts0| && hosts0[i] != SILENT then hosts0[i] else h
    ensures seen[i] == (if i < |seen0| then seen0[i] else {}) + (if h != SILENT then {h} else {})
  {
    hosts, seen := hosts0, seen0;
    while |hosts| <= i
      invariant |hosts| == |seen|
      invariant || (hosts == hosts0 && seen == seen0)
                || (|hosts0| == i && hosts == hosts0 + [SILENT] && seen == seen0 + [{}])
    {
      hosts := hosts + [SILENT];
      seen := seen + [{}];
    }
    if hosts[i] == SILENT && h != SILENT {
      hosts := hosts[i := h];
    }
    if h != SILENT {
      seen := seen[i := seen[i] + {h}];
    }
  }

  /** Some run in the window answered with h at that TTL. */
  ghost predicate Ever(w: seq<Payload>, i: nat, h: string) {
    exists k | 0 <= k < |w| :: Answer(w[k], i) == h
  }

  ghost predicate LengthSeen(w: seq<Payload>, n: nat) {
    exists k | 0 <= k < |w| :: RunHosts(w[k]).Some? && |RunHosts(w[k]).value| == n
  }

  /** Some row holds host as the newest answer at a TTL: it answered so and
      every newer row was silent there. */
  ghost predicate NewestAnswerIs(w: seq<Payload>, i: nat, host: string) {
    && host != SILENT
    && exists k | 0 <= k < |w| :: Answer(w[k], i) == host && forall j | 0 <= j < k :: Answer(w[j], i) == SILENT
  }

  lemma {:induction false} SeenAtExact(w: seq<Payload>, i: nat, h: string)
    ensures h in SeenAt(w, i) <==> h != SILENT && Ever(w, i, h)
  {
    if w != [] {
      var n := |w| - 1;
      SeenAtExact(w[..n], i, h);
      if Ever(w[..n], i, h) {
        var k :| 0 <= k < n && Answer(w[..n][k], i) == h;
        assert Answer(w[k], i) == h;
      }
      if Ever(w, i, h) && Answer(w[n], i) != h {
        var k :| 0 <= k < |w| && Answer(w[k], i) == h;
        assert Answer(w[..n][k], i) == h;
      }
    }
  }

  lemma LengthSeenSnoc(w: seq<Payload>, p: Payload, n: nat)
    ensures LengthSeen(w + [p], n) <==> LengthSeen(w, n) || (RunHosts(p).Some? && |RunHosts(p).value| == n)
  {
    var longer := w + [p];
    assert longer[|w|] == p;
    if LengthSeen(w, n) {
      var k :| 0 <= k < |w| && RunHosts(w[k]).Some? && |RunHosts(w[k]).value| == n;
      assert longer[k] == w[k];
    }
  }

  lemma {:induction false} LengthsExact(w: seq<Payload>, n: nat)
    ensures n in Lengths(w) <==> LengthSeen(w, n)
    ensures n in Lengths(w) ==> n <= Depth(w)
    ensures if Lengths(w) == {} then Depth(w) == 0 else Depth(w) in Lengths(w)
  {
    if w != [] {
      var init, p := w[..|w| - 1], w[|w| - 1];
      LengthsExact(init, n);
      assert w == init + [p];
      DepthSnoc(init, p);
      LengthSeenSnoc(init, p, n);
    }
  }

  ghost predicate AllSilent(w: seq<Payload>, i: nat) {
    forall k | 0 <= k < |w| :: Answer(w[k], i) == SILENT
  }

  lemma NewestAnswerStays(w: seq<Payload>, p: Payload, i: nat, host: string)
    requires NewestAnswerIs(w, i, host)
    ensures NewestAnswerIs(w + [p], i, host)
  {
    var k :| 0 <= k < |w| && Answer(w[k], i) == host && forall j | 0 <= j < k :: Answer(w[j], i) == SILENT;
    var longer := w + [p];
    assert Answer(longer[k], i) == host && forall j | 0 <= j < k :: Answer(longer[j], i) == SILENT;
  }

  lemma SilenceBroken(w: seq<Payload>, p: Payload, i: nat)
    requires AllSilent(w, i)
    ensures if Answer(p, i) == SILENT then AllSilent(w + [p], i) else NewestAnswerIs(w + [p], i, Answer(p, i))
  {
    var longer := w + [p];
    assert longer[|w|] == p && forall j | 0 <= j < |w| :: longer[j] == w[j];
    assert Answer(longer[|w|], i) == Answer(p, i);
  }

  lemma {:induction false} NewestExact(w: seq<Payload>, i: nat)
    ensures Newest(w, i) == SILENT <==> SeenAt(w, i) == {}
    ensures if Newest(w, i) == SILENT then AllSilent(w, i) else NewestAnswerIs(w, i, Newest(w, i))
  {
    if w != [] {
      var init, p := w[..|w| - 1], w[|w| - 1];
      NewestExact(init, i);
      assert w == init + [p];
      WindowSnoc(init, p, i);
      if Newest(init, i) != SILENT {
        NewestAnswerStays(init, p, i, Newest(init, i));
      } else {
        SilenceBroken(init, p, i);
      }
    }
  }

  /** What one slot of the baseline must hold for a window. */
  ghost predicate SlotExact(w: seq<Payload>, i: nat, host: string, seen: set<string>) {
    && (forall h :: h in seen <==> h != SILENT && Ever(w, i, h))
    && (if seen == {} then host == SILENT else NewestAnswerIs(w, i, host))
  }

  ghost predicate LengthsAre(w: seq<Payload>, lengths: set<nat>, longest: nat) {
    && (forall n :: n in lengths <==> LengthSeen(w, n))
    && (forall n | n in lengths :: n <= longest)
    && (if lengths == {} then longest == 0 else longest in lengths)
  }

  /** The baseline, slot by slot and for every window: each host is the newest
      answer, or "*" iff nothing was seen; each seen set is exactly the answers;
      the list is as long as the longest run. */
  lemma BaselineFold(w: seq<Payload>)
    ensures |BaselineOf(w).hosts| == |BaselineOf(w).seen|
    ensures forall i: nat | i < |BaselineOf(w).hosts| :: SlotExact(w, i, BaselineOf(w).hosts[i], BaselineOf(w).seen[i])
    ensures LengthsAre(w, BaselineOf(w).lengths, |BaselineOf(w).hosts|)
  {
    forall i: nat
      ensures SlotExact(w, i, Newest(w, i), SeenAt(w, i))
    {
      SlotIsExact(w, i);
    }
    LengthsAreExact(w);
  }

  lemma SlotIsExact(w: seq<Payload>, i: nat)
    ensures SlotExact(w, i, Newest(w, i), SeenAt(w, i))
  {
    forall h
      ensures h in SeenAt(w, i) <==> h != SILENT && Ever(w, i, h)
    {
      SeenAtExact(w, i, h);
    }
    NewestExact(w, i);
  }

  lemma LengthsAreExact(w: seq<Payload>)
    ensures LengthsAre(w, Lengths(w), Depth(w))
  {
    forall n: nat
      ensures n in Lengths(w) <==> LengthSeen(w, n)
      ensures n in Lengths(w) ==> n <= Depth(w)
    {
      LengthsExact(w, n);
    }
    LengthsExact(w, 0);
  }

  /** Two windows hold the same evidence at a TTL. */
  ghost predicate SameEvidence(w: seq<Payload>, w': seq<Payload>, i: nat) {
    Newest(w, i) == Newest(w', i) && SeenAt(w, i) == SeenAt(w', i)
  }

  /** A run that is silent at a TTL, wherever it sits in the window, leaves the
      evidence at that TTL as it was. */
  lemma SilenceErasesNothing(newer: seq<Payload>, p: Payload, older: seq<Payload>, i: nat)
    requires Answer(p, i) == SILENT
    ensures SameEvidence(newer + [p] + older, newer + older, i)
  {
    WindowSnoc(newer, p, i);
    SameEvidenceExtends(newer + [p], newer, older, i);
  }

  lemma {:induction false} SameEvidenceExtends(w: seq<Payload>, w': seq<Payload>, older: seq<Payload>, i: nat)
    requires SameEvidence(w, w', i)
    ensures SameEvidence(w + older, w' + older, i)
    decreases |older|
  {
    if older == [] {
      assert w + [] == w && w' + [] == w';
    } else {
      var init, last := older[..|older| - 1], older[|older| - 1];
      SameEvidenceExtends(w, w', init, i);
      SameEvidenceSnoc(w + init, w' + init, last, i);
      AppendLast(w, older);
      AppendLast(w', older);
    }
  }

  lemma AppendLast(w: seq<Payload>, older: seq<Payload>)
    requires older != []
    ensures w + older == w + older[..|older| - 1] + [older[|older| - 1]]
  {
  }

  lemma SameEvidenceSnoc(w: seq<Payload>, w': seq<Payload>, p: Payload, i: nat)
    requires SameEvidence(w, w', i)
    ensures SameEvidence(w + [p], w' + [p], i)
  {
    WindowSnoc(w, p, i);
    WindowSnoc(w', p, i);
  }

  // ---------------------------------------------------------------------
  // Comparison and verdict
  // ---------------------------------------------------------------------

  datatype Diff = Same | Differs(ttl: nat, fromHop: string, toHop: string)

  /** Both sides name a host at this index, and not the same one. */
  predicate Contradicts(from: seq<string>, to: seq<string>, i: nat) {
    i < |from| && i < |to| && from[i] != SILENT && to[i] != SILENT && from[i] != to[i]
  }

  ghost predicate FirstContradiction(from: seq<string>, to: seq<string>, i: nat) {
    Contradicts(from, to, i) && forall j: nat | j < i :: !Contradicts(from, to, j)
  }

  ghost predicate Compatible(from: seq<string>, to: seq<string>) {
    forall i: nat :: !Contradicts(from, to, i)
  }

  function DiffFrom(from: seq<string>, to: seq<string>, i: nat): Diff
    decreases |from| - i
  {
    if i < |from| && i < |to| then
      if Contradicts(from, to, i) then Differs(i + 1, from[i], to[i]) else DiffFrom(from, to, i + 1)
    else if |to| > |from| then Differs(|from| + 1, "", to[|from|])
    else if |from| > |to| then Differs(|to| + 1, from[|to|], "")
    else Same
  }

  method DiffSignatures(from: seq<string>, to: seq<string>) returns (d: Diff)
    ensures d == DiffFrom(from, to, 0)
  {
    var n := |from|;
    if |to| < n {
      n := |to|;
    }
    for i := 0 to n
      invariant DiffFrom(from, to, 0) == DiffFrom(from, to, i)
    {
      if from[i] == SILENT || to[i] == SILENT || from[i] == to[i] {
        continue;
      }
      return Differs(i + 1, from[i], to[i]);
    }
    if |from| != |to| {
      if |to| > |from| {
        return Differs(|from| + 1, "", to[|from|]);
      }
      return Differs(|to| + 1, from[|to|], "");
    }
    return Same;
  }

  /** diffSignatures in its own terms: the first contradiction, else the end of
      the shorter list, else nothing; "*" matches anything. */
  lemma {:induction false} DiffExact(from: seq<string>, to: seq<string>, i: nat)
    requires forall j: nat | j < i :: !Contradicts(from, to, j)
    requires i <= |from| && i <= |to|
    ensures match DiffFrom(from, to, i)
            case Same => Compatible(from, to) && |from| == |to|
            case Differs(ttl, f, t) =>
              && ttl >= 1
              && (Compatible(from, to) <==> !FirstContradiction(from, to, ttl - 1))
              && if Compatible(from, to)
                 then |from| != |to| && ttl == Min(|from|, |to|) + 1
                      && f == (if |from| > |to| then from[ttl - 1] else "")
                      && t == (if |to| > |from| then to[ttl - 1] else "")
                 else f == from[ttl - 1] && t == to[ttl - 1]
    decreases |from| - i
  {
    if i < |from| && i < |to| {
      if Contradicts(from, to, i) {
        assert FirstContradiction(from, to, i);
      } else {
        DiffExact(from, to, i + 1);
      }
    }
  }

  predicate SeenRecently(base: Baseline, ttl: nat, hop: string) {
    hop != "" && 1 <= ttl <= |base.seen| && hop in base.seen[ttl - 1]
  }

  /** The two suppression tests, on a difference already found. */
  predicate Reported(base: Baseline, current: seq<string>, d: Diff) {
    && d.Differs?
    && !SeenRecently(base, d.ttl, d.toHop)
    && !((d.toHop == "" || d.fromHop == "") && |current| in base.lengths)
  }

  /** detectPathChange up to the point where it marks the result: the recorded
      difference, or None when the run is not marked. */
  function Detect(base: Baseline, hops: seq<string>, reached: bool): Option<Diff> {
    if hops == [] || base.hosts == [] then None
    else
      var current := Signature(hops, reached);
      if current == [] then None
      else
        var d := DiffFrom(base.hosts, current, 0);
        if Reported(base, current, d) then Some(d) else None
  }

  method DetectPathChange(window: seq<Payload>, hops: seq<string>, reached: bool) returns (change: Option<Diff>)
    ensures change == Detect(BaselineOf(window), hops, reached)
  {
    if |hops| == 0 {
      return None;
    }
    var base := TracerouteBaselineFor(window);
    if |base.hosts| == 0 {
      return None;
    }
    var current := PathSignature(hops, reached);
    if |current| == 0 {
      return None;
    }
    var d := DiffSignatures(base.hosts, current);
    if d == Same {
      return None;
    }
    if SeenRecently(base, d.ttl, d.toHop) {
      return None;
    }
    if (d.toHop == "" || d.fromHop == "") && |current| in base.lengths {
      return None;
    }
    return Some(d);
  }

  /** The run contradicts the window's newest answer at a TTL. */
  predicate Clashes(w: seq<Payload>, current: seq<string>, i: nat) {
    i < |current| && current[i] != SILENT && Newest(w, i) != SILENT && Newest(w, i) != current[i]
  }

  ghost predicate FirstClash(w: seq<Payload>, current: seq<string>, i: nat) {
    Clashes(w, current, i) && forall j: nat | j < i :: !Clashes(w, current, j)
  }

  ghost predicate NeverClashes(w: seq<Payload>, current: seq<string>) {
    forall i: nat :: !Clashes(w, current, i)
  }

  /** The declarative verdict: at the first TTL where the run clashes with the
      window's newest answers it names an address no run of the window gave
      there; or it clashes nowhere and no run of the window was as long. */
  ghost predicate Rerouted(w: seq<Payload>, current: seq<string>) {
    || (exists i: nat | FirstClash(w, current, i) :: !Ever(w, i, current[i]))
    || (NeverClashes(w, current) && !LengthSeen(w, |current|))
  }

  lemma ClashesIsContradicts(w: seq<Payload>, current: seq<string>, i: nat)
    ensures Clashes(w, current, i) <==> Contradicts(BaselineOf(w).hosts, current, i)
  {
    if i >= Depth(w) {
      NothingBeyondDepth(w, i);
    }
  }

  lemma BaselineHasNoEmptyHop(w: seq<Payload>, i: nat)
    ensures Newest(w, i) != ""
  {
    if w != [] {
      BaselineHasNoEmptyHop(w[..|w| - 1], i);
      var p := w[|w| - 1];
      if p.Decoded? {
        SignatureHasNoEmptyHop(p.hops, p.reached);
      }
    }
  }

  /** The verdict on a difference when the run clashes nowhere. */
  ghost predicate LengthVerdict(w: seq<Payload>, c: seq<string>, d: Diff) {
    && NeverClashes(w, c)
    && (Reported(BaselineOf(w), c, d) <==> !LengthSeen(w, |c|))
    && match d
       case Same => |c| == Depth(w)
       case Differs(ttl, _, to) => |c| != Depth(w) && ttl == Min(Depth(w), |c|) + 1 && (|c| > Depth(w) ==> to == c[ttl - 1])
  }

  /** The verdict on a difference at the run's first clash. */
  ghost predicate FirstClashVerdict(w: seq<Payload>, c: seq<string>, d: Diff) {
    && d.Differs? && d.ttl >= 1 && FirstClash(w, c, d.ttl - 1) && d.toHop == c[d.ttl - 1]
    && (Reported(BaselineOf(w), c, d) <==> !Ever(w, d.ttl - 1, d.toHop))
  }

  lemma EitherVerdict(w: seq<Payload>, c: seq<string>)
    requires BaselineOf(w).hosts != [] && "" !in c
    ensures var d := DiffFrom(BaselineOf(w).hosts, c, 0); LengthVerdict(w, c, d) || FirstClashVerdict(w, c, d)
  {
    var base := BaselineOf(w);
    DiffExact(base.hosts, c, 0);
    if Compatible(base.hosts, c) {
      CompatibleVerdict(w, c, DiffFrom(base.hosts, c, 0));
    } else {
      ClashVerdict(w, c, DiffFrom(base.hosts, c, 0));
    }
  }

  /** Exact verdict: against any non-empty baseline, a run with a non-empty
      signature is marked changed iff it is rerouted in the sense above. */
  lemma ExactVerdict(w: seq<Payload>, hops: seq<string>, reached: bool)
    requires BaselineOf(w).hosts != [] && Signature(hops, reached) != []
    ensures Detect(BaselineOf(w), hops, reached).Some? <==> Rerouted(w, Signature(hops, reached))
  {
    var c := Signature(hops, reached);
    SignatureHasNoEmptyHop(hops, reached);
    EitherVerdict(w, c);
    var d := DiffFrom(BaselineOf(w).hosts, c, 0);
    if FirstClashVerdict(w, c, d) {
      FirstClashUnique(w, c, d.ttl - 1);
    }
  }

  lemma CompatibleVerdict(w: seq<Payload>, c: seq<string>, d: Diff)
    requires Compatible(BaselineOf(w).hosts, c) && BaselineOf(w).hosts != []
    requires match d
             case Same => |c| == Depth(w)
             case Differs(ttl, f, to) =>
               && |c| != Depth(w) && ttl == Min(Depth(w), |c|) + 1
               && (Depth(w) > |c| ==> to == "") && (|c| > Depth(w) ==> f == "" && to == c[ttl - 1])
    ensures LengthVerdict(w, c, d)
  {
    forall i: nat
      ensures !Clashes(w, c, i)
    {
      ClashesIsContradicts(w, c, i);
    }
    LengthsExact(w, |c|);
  }

  lemma FirstContradictionIsFirstClash(w: seq<Payload>, current: seq<string>, i: nat)
    requires FirstContradiction(BaselineOf(w).hosts, current, i)
    ensures FirstClash(w, current, i)
  {
    forall j: nat
      ensures Clashes(w, current, j) <==> Contradicts(BaselineOf(w).hosts, current, j)
    {
      ClashesIsContradicts(w, current, j);
    }
  }

  /** At a clash both sides are addresses, so only the seen set can suppress it. */
  lemma ClashReported(w: seq<Payload>, current: seq<string>, d: Diff)
    requires d.Differs? && 1 <= d.ttl <= |BaselineOf(w).hosts| && d.fromHop != "" && d.toHop != ""
    ensures Reported(BaselineOf(w), current, d) <==> d.toHop !in SeenAt(w, d.ttl - 1)
  {
  }

  lemma ClashVerdict(w: seq<Payload>, current: seq<string>, d: Diff)
    requires d.Differs? && d.ttl >= 1 && FirstContradiction(BaselineOf(w).hosts, current, d.ttl - 1) && "" !in current
    requires d.fromHop == BaselineOf(w).hosts[d.ttl - 1] && d.toHop == current[d.ttl - 1]
    ensures FirstClashVerdict(w, current, d)
  {
    BaselineHasNoEmptyHop(w, d.ttl - 1);
    ClashReported(w, current, d);
    SeenAtExact(w, d.ttl - 1, d.toHop);
    FirstContradictionIsFirstClash(w, current, d.ttl - 1);
  }

  lemma FirstClashUnique(w: seq<Payload>, current: seq<string>, i: nat)
    requires FirstClash(w, current, i)
    ensures Rerouted(w, current) <==> !Ever(w, i, current[i])
    ensures forall k: nat :: FirstClash(w, current, k) <==> k == i
  {
    forall k: nat | FirstClash(w, current, k)
      ensures k == i
    {
    }
  }

  /** "Every new address is reported" is false: here TTL 2 carries an address
      the window never saw, but TTL 1 already contradicts with one it did. */
  lemma NewAddressCanBeMissed()
    ensures var w := [Decoded(false, ["a", "c"]), Decoded(false, ["b", "c"])];
            var hops := ["b", "z"];
            !Ever(w, 1, "z") && Newest(w, 1) == "c" && Detect(BaselineOf(w), hops, false).None?
  {
    var p, q := Decoded(false, ["a", "c"]), Decoded(false, ["b", "c"]);
    var w, hops := [p, q], ["b", "z"];
    assert w[..1] == [p] && [p][..0] == [];
    assert Signature(["a", "c"], false) == ["a", "c"] && Signature(["b", "c"], false) == ["b", "c"];
    assert Newest([p], 0) == Answer(p, 0) == "a" && Newest([p], 1) == Answer(p, 1) == "c";
    assert FirstClash(w, Signature(hops, false), 0);
    assert Answer(w[1], 0) == "b";
    FirstClashUnique(w, Signature(hops, false), 0);
    assert Depth([p]) == 2;
    ExactVerdict(w, hops, false);
  }

  /** The recorded change is the one at this TTL of the run. */
  predicate NamedAt(found: Option<Diff>, current: seq<string>, i: nat)
    requires i < |current|
  {
    found.Some? && found.value.Differs? && found.value.ttl == i + 1 && found.value.toHop == current[i]
  }

  /** When exactly the hop at a TTL is the one reported, whatever the window and
      whether or not the slot is silent: iff it is the run's first clash and was
      never seen there, or the run clashes nowhere and this is the first TTL
      past every run of the window. */
  lemma NewAddressReportedIff(w: seq<Payload>, hops: seq<string>, reached: bool, i: nat)
    requires BaselineOf(w).hosts != [] && i < |Signature(hops, reached)|
    ensures var c := Signature(hops, reached);
            NamedAt(Detect(BaselineOf(w), hops, reached), c, i) <==>
            (FirstClash(w, c, i) && !Ever(w, i, c[i])) || (NeverClashes(w, c) && i == Depth(w))
  {
    var c := Signature(hops, reached);
    var d := DiffFrom(BaselineOf(w).hosts, c, 0);
    SignatureHasNoEmptyHop(hops, reached);
    EitherVerdict(w, c);
    NamedByVerdict(w, c, d, i);
  }

  lemma NamedByVerdict(w: seq<Payload>, c: seq<string>, d: Diff, i: nat)
    requires i < |c| && (LengthVerdict(w, c, d) || FirstClashVerdict(w, c, d))
    ensures NamedAt(if Reported(BaselineOf(w), c, d) then Some(d) else None, c, i) <==>
            (FirstClash(w, c, i) && !Ever(w, i, c[i])) || (NeverClashes(w, c) && i == Depth(w))
  {
    if LengthVerdict(w, c, d) {
      LengthsExact(w, |c|);
    } else {
      FirstClashUnique(w, c, d.ttl - 1);
    }
  }

  /** A never-seen address behind a silent slot goes unreported too. */
  lemma SilentSlotHidesNewAddress()
    ensures var w := [Decoded(false, ["a", ""])];
            !Ever(w, 1, "z") && Detect(BaselineOf(w), ["a", "z"], false).None?
  {
    var p := Decoded(false, ["a", ""]);
    var w, c := [p], Signature(["a", "z"], false);
    assert w[..0] == [];
    assert Signature(["a", ""], false) == ["a", "*"] && c == ["a", "z"];
    assert Newest(w, 0) == Answer(p, 0) == "a" && Newest(w, 1) == SILENT;
    assert NeverClashes(w, c);
    assert RunHosts(w[0]) == Some(["a", "*"]) && LengthSeen(w, |c|);
    assert Depth(w) == 2;
    ExactVerdict(w, ["a", "z"], false);
  }

  /** A run that repeats any run of the window is never marked. */
  lemma RepeatIsQuiet(w: seq<Payload>, k: nat, hops: seq<string>, reached: bool)
    requires k < |w| && RunHosts(w[k]) == Some(Signature(hops, reached))
    ensures Detect(BaselineOf(w), hops, reached).None?
  {
    var current := Signature(hops, reached);
    if BaselineOf(w).hosts != [] && current != [] {
      ExactVerdict(w, hops, reached);
      forall i: nat | FirstClash(w, current, i)
        ensures Ever(w, i, current[i])
      {
        assert Answer(w[k], i) == current[i];
      }
      assert LengthSeen(w, |current|);
    }
  }

  // ---------------------------------------------------------------------
  // The ingest step over the bounded tables
  // ---------------------------------------------------------------------

  const BASELINE_RUNS: nat := 20

  datatype Probe = Probe(agentId: string, testId: string)
  datatype ResultBody = ResultBody(testType: string, payload: Payload)
  datatype PathChange = PathChange(diff: Diff, fromSig: seq<string>, toSig: seq<string>)

  /** One result reaching handleResult, with what each fallible call does. */
  datatype Arrival = Arrival(probe: Probe, testType: string, reached: bool, hops: seq<string>,
                             baselineReadable: bool, encodes: bool, stored: History.Outcome, recorded: History.Outcome)

  datatype State = State(results: History.Table<Probe, ResultBody>, changes: History.Table<Probe, PathChange>)

  const EMPTY := State(History.Table([], 0), History.Table([], 0))

  /** The payloads of test_type 'traceroute', in table order. */
  function Traces(bodies: seq<ResultBody>): seq<Payload> {
    if bodies == [] then []
    else
      var b := bodies[|bodies| - 1];
      Traces(bodies[..|bodies| - 1]) + if b.testType == "traceroute" then [b.payload] else []
  }

  /** ORDER BY id DESC LIMIT 20 over the probe's traceroute rows. */
  function Window(bodies: seq<ResultBody>): seq<Payload> {
    Reversed(LastN(Traces(bodies), BASELINE_RUNS))
  }

  function StoredBodies(s: State, probe: Probe): seq<ResultBody> {
    History.Bodies(History.InScope(s.results.rows, probe))
  }

  function Finding(s: State, a: Arrival): Option<PathChange> {
    if a.probe.testId == "" || !a.baselineReadable then None
    else
      var base := BaselineOf(Window(StoredBodies(s, a.probe)));
      match Detect(base, a.hops, a.reached)
      case None => None
      case Some(d) => Some(PathChange(d, base.hosts, Signature(a.hops, a.reached)))
  }

  function ResultInsert(a: Arrival): History.Insert<Probe, ResultBody> {
    History.Insert(a.probe, a.probe, ResultBody(a.testType, Decoded(a.reached, a.hops)), History.RESULTS_PER_TEST,
                   if a.encodes then a.stored else History.InsertFailed)
  }

  function ChangeInsert(a: Arrival, c: PathChange): History.Insert<Probe, PathChange> {
    History.Insert(a.probe, a.probe, c, History.PATH_CHANGES_PER_TEST, a.recorded)
  }

  function Handled(s: State, a: Arrival): State {
    State(History.Apply(s.results, ResultInsert(a)),
          match Finding(s, a)
          case None => s.changes
          case Some(c) => History.Apply(s.changes, ChangeInsert(a, c)))
  }

  function Run(run: seq<Arrival>): State {
    if run == [] then EMPTY else Handled(Run(run[..|run| - 1]), run[|run| - 1])
  }

  class Monitor {
    const results: History.BoundedTable<Probe, ResultBody>
    const changes: History.BoundedTable<Probe, PathChange>

    function Contents(): State
      reads results, changes
    {
      State(results.Contents(), changes.Contents())
    }

    constructor ()
      ensures Contents() == EMPTY && fresh(results) && fresh(changes)
    {
      results := new History.BoundedTable();
      changes := new History.BoundedTable();
    }

    /** The baseline is read before the result is stored, so the run never
        vouches for itself. */
    method HandleResult(a: Arrival) returns (pathChanged: bool)
      modifies results, changes
      ensures Contents() == Handled(old(Contents()), a)
      ensures pathChanged == Finding(old(Contents()), a).Some?
    {
      pathChanged := false;
      if a.probe.testId != "" && a.baselineReadable {
        var window := Window(History.Bodies(History.InScope(results.rows, a.probe)));
        var change := DetectPathChange(window, a.hops, a.reached);
        if change.Some? {
          pathChanged := true;
          var base := TracerouteBaselineFor(window);
          var current := PathSignature(a.hops, a.reached);
          changes.Add(ChangeInsert(a, PathChange(change.value, base.hosts, current)));
        }
      }
      if a.encodes {
        results.Add(ResultInsert(a));
      }
    }
  }

  function ResultInserts(run: seq<Arrival>): seq<History.Insert<Probe, ResultBody>> {
    seq(|run|, i requires 0 <= i < |run| => ResultInsert(run[i]))
  }

  /** Everything ever stored for a probe, run if nothing were ever pruned. */
  function FullHistory(run: seq<Arrival>, probe: Probe): seq<ResultBody> {
    History.Written(ResultInserts(run), probe)
  }

  lemma {:induction false} ResultsAreHistory(run: seq<Arrival>)
    ensures Run(run).results == History.Run(History.Table([], 0), ResultInserts(run))
  {
    if run != [] {
      var n := |run| - 1;
      ResultsAreHistory(run[..n]);
      assert ResultInserts(run)[..n] == ResultInserts(run[..n]);
    }
  }

  lemma {:induction false} AllTraces(bodies: seq<ResultBody>, n: nat)
    requires forall b | b in bodies :: b.testType == "traceroute"
    ensures |Traces(bodies)| == |bodies|
    ensures Traces(LastN(bodies, n)) == LastN(Traces(bodies), n)
    ensures forall i | 0 <= i < |bodies| :: Traces(bodies)[i] == bodies[i].payload
  {
    TracesAt(bodies);
    TracesAt(LastN(bodies, n));
  }

  lemma {:induction false} TracesAt(bodies: seq<ResultBody>)
    requires forall b | b in bodies :: b.testType == "traceroute"
    ensures |Traces(bodies)| == |bodies|
    ensures forall i | 0 <= i < |bodies| :: Traces(bodies)[i] == bodies[i].payload
  {
    if bodies != [] {
      assert bodies[|bodies| - 1] in bodies;
      TracesAt(bodies[..|bodies| - 1]);
    }
  }

  lemma {:induction false} HistoryTypes(run: seq<Arrival>, probe: Probe)
    requires forall a | a in run && a.probe == probe :: a.testType == "traceroute"
    ensures forall b | b in FullHistory(run, probe) :: b.testType == "traceroute"
  {
    if run != [] {
      var n := |run| - 1;
      assert run[n] in run;
      assert forall a | a in run[..n] :: a in run;
      HistoryTypes(run[..n], probe);
      assert ResultInserts(run)[..n] == ResultInserts(run[..n]);
    }
  }

  /** For a test whose rows are all traceroute, the window read from the pruned
      table is the window of the full history. */
  lemma PrunedWindowIsFullWindow(run: seq<Arrival>, probe: Probe)
    requires forall a | a in run && a.probe == probe :: a.testType == "traceroute"
    ensures Window(StoredBodies(Run(run), probe)) == Window(FullHistory(run, probe))
  {
    var es, full := ResultInserts(run), FullHistory(run, probe);
    ResultsAreHistory(run);
    HistoryTypes(run, probe);
    History.WindowUnaffectedByPruning(es, probe, BASELINE_RUNS);
    History.HistoryIsNewestWrites(es, probe);
    var held := StoredBodies(Run(run), probe);
    assert forall b | b in held :: b in full;
    AllTraces(held, BASELINE_RUNS);
    AllTraces(full, BASELINE_RUNS);
  }

  ghost predicate Among(ps: seq<Payload>, a: Arrival) {
    exists p | p in ps :: RunHosts(p) == Some(Signature(a.hops, a.reached))
  }

  /** The run repeats one of those the server reads as its baseline: the probe's
      last 20 traceroute rows in the table. */
  ghost predicate Repeats(before: seq<Arrival>, a: Arrival) {
    Among(Window(StoredBodies(Run(before), a.probe)), a)
  }

  lemma RepeatFindsNothing(before: seq<Arrival>, a: Arrival)
    requires Repeats(before, a)
    ensures Finding(Run(before), a).None?
  {
    var w := Window(StoredBodies(Run(before), a.probe));
    var k :| 0 <= k < |w| && RunHosts(w[k]) == Some(Signature(a.hops, a.reached));
    RepeatIsQuiet(w, k, a.hops, a.reached);
  }

  /** Once every run of a probe repeats one of the 20 before it, no event is
      ever recorded for that probe again, whatever other probes do and whatever
      else was stored for it. */
  lemma QuietForever(run: seq<Arrival>, from: nat, probe: Probe)
    requires from <= |run|
    requires forall k | from <= k < |run| && run[k].probe == probe :: Repeats(run[..k], run[k])
    ensures forall k | from <= k < |run| && run[k].probe == probe :: Finding(Run(run[..k]), run[k]).None?
    ensures History.InScope(Run(run).changes.rows, probe) == History.InScope(Run(run[..from]).changes.rows, probe)
  {
    forall k | from <= k < |run| && run[k].probe == probe
      ensures Finding(Run(run[..k]), run[k]).None?
    {
      RepeatFindsNothing(run[..k], run[k]);
    }
    NothingFoundNothingRecorded(run, from, probe);
  }

  lemma AmongReversed(ps: seq<Payload>, a: Arrival)
    ensures Among(Reversed(ps), a) <==> Among(ps, a)
  {
    var r := Reversed(ps);
    if Among(ps, a) {
      var i :| 0 <= i < |ps| && RunHosts(ps[i]) == Some(Signature(a.hops, a.reached));
      assert r[|ps| - 1 - i] in r;
    }
    if Among(r, a) {
      var i :| 0 <= i < |r| && RunHosts(r[i]) == Some(Signature(a.hops, a.reached));
      assert r[i] in ps;
    }
  }

  /** The results of a probe that got into the table, pruned or not. */
  function Inserted(run: seq<Arrival>, probe: Probe): seq<Arrival> {
    if run == [] then []
    else
      var a := run[|run| - 1];
      Inserted(run[..|run| - 1], probe) + if a.probe == probe && a.encodes && !a.stored.InsertFailed? then [a] else []
  }

  /** The two runs took the same path as far as it is compared. */
  predicate SamePath(x: Arrival, a: Arrival) {
    x.hops != [] && Signature(x.hops, x.reached) == Signature(a.hops, a.reached)
  }

  lemma {:induction false} HistoryOfInserted(run: seq<Arrival>, probe: Probe)
    ensures |FullHistory(run, probe)| == |Inserted(run, probe)|
    ensures forall i | 0 <= i < |Inserted(run, probe)| ::
              var x := Inserted(run, probe)[i]; FullHistory(run, probe)[i] == ResultBody(x.testType, Decoded(x.reached, x.hops))
  {
    if run != [] {
      var n := |run| - 1;
      HistoryOfInserted(run[..n], probe);
      assert ResultInserts(run)[..n] == ResultInserts(run[..n]);
    }
  }

  /** For a probe that only ever ran traceroutes, in terms of what arrived: a run
      repeats a row of its baseline iff one of the probe's last 20 results to get
      into the table took the same path. */
  lemma RepeatsInFullHistory(before: seq<Arrival>, a: Arrival)
    requires forall b | b in before && b.probe == a.probe :: b.testType == "traceroute"
    ensures Repeats(before, a) <==> exists x | x in LastN(Inserted(before, a.probe), 20) :: SamePath(x, a)
  {
    PrunedWindowIsFullWindow(before, a.probe);
    var full, runs := FullHistory(before, a.probe), Inserted(before, a.probe);
    AmongReversed(LastN(Traces(full), 20), a);
    HistoryTypes(before, a.probe);
    AllTraces(full, 20);
    HistoryOfInserted(before, a.probe);
    var ps, xs := LastN(Traces(full), 20), LastN(runs, 20);
    assert |ps| == |xs| && forall i | 0 <= i < |xs| :: ps[i] == Decoded(xs[i].reached, xs[i].hops);
    SamePathAmong(ps, xs, a);
  }

  lemma SamePathAmong(ps: seq<Payload>, xs: seq<Arrival>, a: Arrival)
    requires |ps| == |xs| && forall i | 0 <= i < |xs| :: ps[i] == Decoded(xs[i].reached, xs[i].hops)
    ensures Among(ps, a) <==> exists x | x in xs :: SamePath(x, a)
  {
    if Among(ps, a) {
      var i :| 0 <= i < |ps| && RunHosts(ps[i]) == Some(Signature(a.hops, a.reached));
      assert xs[i] in xs && SamePath(xs[i], a);
    }
    if x :| x in xs && SamePath(x, a) {
      var i :| 0 <= i < |xs| && xs[i] == x;
      assert ps[i] in ps;
    }
  }

  /** What is in the table right after a result was stored, among them its own. */
  lemma NewestStored(before: seq<Arrival>, a: Arrival)
    requires a.encodes && !a.stored.InsertFailed?
    ensures var held := StoredBodies(Run(before + [a]), a.probe);
            held != [] && held[|held| - 1] == ResultBody(a.testType, Decoded(a.reached, a.hops))
  {
    var s := Run(before);
    assert (before + [a])[..|before|] == before;
    ResultsAreHistory(before);
    History.HistoryIsNewestWrites(ResultInserts(before), a.probe);
    History.ApplyBodies(s.results, ResultInsert(a), a.probe);
  }

  /** A stored run is what later ones are compared with: whatever was there before,
      the same hops arriving again right after it are no change. */
  lemma StoredRunIsBaseline(before: seq<Arrival>, a: Arrival, b: Arrival)
    requires a.encodes && !a.stored.InsertFailed? && a.testType == "traceroute" && a.hops != []
    requires b.probe == a.probe && b.hops == a.hops && b.reached == a.reached
    ensures Repeats(before + [a], b) && Finding(Run(before + [a]), b).None?
  {
    NewestStored(before, a);
    var held := StoredBodies(Run(before + [a]), a.probe);
    NewestTrace(held);
    var w := Window(held);
    assert w[0] == Decoded(a.reached, a.hops) && w[0] in w;
    RepeatFindsNothing(before + [a], b);
  }

  lemma NewestTrace(held: seq<ResultBody>)
    requires held != [] && held[|held| - 1].testType == "traceroute"
    ensures Window(held) != [] && Window(held)[0] == held[|held| - 1].payload
  {
  }

  /** The verdict on an arrival is about the rows stored before it: it is marked iff it
      belongs to a test, they could be read and say anything, and it is rerouted
      with respect to them. */
  lemma FindingExact(s: State, a: Arrival)
    ensures var w, c := Window(StoredBodies(s, a.probe)), Signature(a.hops, a.reached);
            Finding(s, a).Some? <==>
            a.probe.testId != "" && a.baselineReadable && c != [] && Depth(w) > 0 && Rerouted(w, c)
  {
    var w, c := Window(StoredBodies(s, a.probe)), Signature(a.hops, a.reached);
    if BaselineOf(w).hosts != [] && c != [] {
      assert 0 < Depth(w);
      ExactVerdict(w, a.hops, a.reached);
    }
  }

  /** Results are kept like any history: a probe none of whose calls fail has exactly
      its last 5000 in the table. */
  lemma ResultsHeld(run: seq<Arrival>, probe: Probe)
    requires forall a | a in run && a.probe == probe :: a.encodes && a.stored == History.Stored
    ensures StoredBodies(Run(run), probe) == LastN(FullHistory(run, probe), 5000)
  {
    var es := ResultInserts(run);
    ResultsAreHistory(run);
    assert forall e | e in es && e.scope == probe :: e.prune == probe && e.outcome.Stored?;
    History.BoundedHistory(es, probe, 5000);
  }

  /** A recorded event is about its two signatures: at its TTL the old one names the
      hop it came from and the new one the hop it went to, or ends before. */
  lemma EventMatchesSignatures(s: State, a: Arrival)
    requires Finding(s, a).Some?
    ensures a.probe.testId != "" && a.hops != []
    ensures var c := Finding(s, a).value;
            && c.diff.Differs? && c.diff.ttl >= 1
            && c.toSig == Signature(a.hops, a.reached)
            && (c.diff.ttl <= |c.fromSig| && c.diff.ttl <= |c.toSig| ==>
                  c.diff.fromHop == c.fromSig[c.diff.ttl - 1] != c.toSig[c.diff.ttl - 1] == c.diff.toHop)
            && (c.diff.ttl > |c.fromSig| ==> c.diff.ttl <= |c.toSig| && c.diff.fromHop == "" && c.diff.toHop == c.toSig[c.diff.ttl - 1])
            && (c.diff.ttl > |c.toSig| ==> c.diff.ttl <= |c.fromSig| && c.diff.toHop == "" && c.diff.fromHop == c.fromSig[c.diff.ttl - 1])
            && forall i | 0 <= i < |c.fromSig| :: c.fromSig[i] == Newest(Window(StoredBodies(s, a.probe)), i)
  {
    var base := BaselineOf(Window(StoredBodies(s, a.probe)));
    DiffExact(base.hosts, Signature(a.hops, a.reached), 0);
  }

  /** A change that is found and stored is the newest row of the probe, above the
      newest 499 before it. */
  lemma ChangeIsRecorded(s: State, a: Arrival)
    requires History.Ordered(s.changes) && Finding(s, a).Some? && a.recorded == History.Stored
    ensures History.Bodies(History.InScope(Handled(s, a).changes.rows, a.probe)) ==
            LastN(History.Bodies(History.InScope(s.changes.rows, a.probe)) + [Finding(s, a).value], 500)
  {
    History.ApplyBodies(s.changes, ChangeInsert(a, Finding(s, a).value), a.probe);
  }

  lemma {:induction false} NothingFoundNothingRecorded(run: seq<Arrival>, from: nat, probe: Probe)
    requires from <= |run|
    requires forall k | from <= k < |run| && run[k].probe == probe :: Finding(Run(run[..k]), run[k]).None?
    ensures History.InScope(Run(run).changes.rows, probe) == History.InScope(Run(run[..from]).changes.rows, probe)
    decreases |run|
  {
    if from == |run| {
      assert run[..from] == run;
    } else {
      var n := |run| - 1;
      var before := run[..n];
      assert forall k | 0 <= k <= n :: before[..k] == run[..k];
      NothingFoundNothingRecorded(before, from, probe);
      ChangesOrdered(before);
      ChangesOfProbe(Run(before), run[n], probe);
    }
  }

  lemma ChangesOfProbe(s: State, a: Arrival, probe: Probe)
    requires History.Ordered(s.changes) && (a.probe == probe ==> Finding(s, a).None?)
    ensures History.InScope(Handled(s, a).changes.rows, probe) == History.InScope(s.changes.rows, probe)
  {
    if Finding(s, a).Some? && !a.recorded.InsertFailed? {
      OtherScopeUntouched(s.changes, ChangeInsert(a, Finding(s, a).value), probe);
    }
  }

  lemma OtherScopeUntouched(t: History.Table<Probe, PathChange>, e: History.Insert<Probe, PathChange>, probe: Probe)
    requires History.Ordered(t) && e.scope != probe && e.prune != probe
    ensures History.InScope(History.Apply(t, e).rows, probe) == History.InScope(t.rows, probe)
  {
    var r := History.Row(t.nextId, e.scope, e.body);
    History.InScopeSnoc(t.rows, r, probe);
    History.PruneKeepsNewest(t.rows + [r], e.prune, e.limit, probe);
  }

  lemma {:induction false} ChangesOrdered(run: seq<Arrival>)
    ensures History.Ordered(Run(run).changes)
  {
    if run != [] {
      var before, a := run[..|run| - 1], run[|run| - 1];
      ChangesOrdered(before);
      if Finding(Run(before), a).Some? {
        History.ApplyOrdered(Run(before).changes, ChangeInsert(a, Finding(Run(before), a).value));
      }
    }
  }

  // ---------------------------------------------------------------------
  // itoa
  // ---------------------------------------------------------------------

  function ParseDecimal(s: string): int {
    if s == "" then 0 else 10 * ParseDecimal(s[..|s| - 1]) + (s[|s| - 1] as int - '0' as int)
  }

  function Pow10(k: nat): nat {
    if k == 0 then 1 else 10 * Pow10(k - 1)
  }

  /** The ten-byte buffer is filled from its end and never underruns. */
  method Itoa(v: nat) returns (s: string)
    requires v < 0x1_0000_0000
    ensures s == Decimal(v)
  {
    if v == 0 {
      return "0";
    }
    var buf := new char[10];
    var i, rest := buf.Length, v;
    assert Pow10(10) == 100 * Pow10(8) && Pow10(8) == 1000 * Pow10(5) && Pow10(5) == 100000;
    while rest > 0
      invariant 0 <= i <= 10 && 0 <= rest
      invariant rest < Pow10(i)
      invariant rest == 0 ==> buf[i..] == Decimal(v)
      invariant rest > 0 ==> Decimal(v) == Decimal(rest) + buf[i..]
    {
      i := i - 1;
      buf[i] := Digit(rest % 10);
      assert buf[i..] == [buf[i]] + buf[i + 1..];
      rest := rest / 10;
    }
    return buf[i..];
  }

  lemma {:induction false} DecimalRoundTrip(v: nat)
    ensures ParseDecimal(Decimal(v)) == v
    ensures Decimal(v) != "" && (v > 0 ==> Decimal(v)[0] != '0')
  {
    if v >= 10 {
      DecimalRoundTrip(v / 10);
      var s := Decimal(v / 10);
      assert (s + [Digit(v % 10)])[..|s|] == s;
    } else {
      assert [Digit(v)][..0] == "";
    }
  }
}
