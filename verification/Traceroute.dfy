/** The traceroute engine's aggregation: round-trip statistics over reals, one
    hop's probes, and the TTL loop with its stall verdict. */
module Traceroute {
  import opened Sequences

  // ---------------------------------------------------------------------
  // rttStats
  // ---------------------------------------------------------------------

  /** Jitter is kept as its square, the population variance. */
  datatype Stats = Stats(avg: real, best: real, worst: real, variance: real)

  function Sum(s: seq<real>): real {
    if s == [] then 0.0 else Sum(s[..|s| - 1]) + s[|s| - 1]
  }

  function SquaredDeviations(s: seq<real>, about: real): real {
    if s == [] then 0.0
    else
      var d := s[|s| - 1] - about;
      SquaredDeviations(s[..|s| - 1], about) + d * d
  }

  ghost predicate IsMin(s: seq<real>, m: real) {
    m in s && forall i | 0 <= i < |s| :: m <= s[i]
  }

  ghost predicate IsMax(s: seq<real>, m: real) {
    m in s && forall i | 0 <= i < |s| :: s[i] <= m
  }

  ghost predicate IsStats(s: seq<real>, st: Stats) {
    if s == [] then st == Stats(0.0, 0.0, 0.0, 0.0)
    else
      && IsMin(s, st.best) && IsMax(s, st.worst)
      && st.avg * (|s| as real) == Sum(s)
      && st.variance * (|s| as real) == SquaredDeviations(s, st.avg)
  }

  lemma QuotientTimes(x: real, n: real)
    requires n > 0.0
    ensures x / n * n == x
  {
  }

  method RttStats(rtts: seq<real>) returns (st: Stats)
    ensures IsStats(rtts, st)
  {
    if |rtts| == 0 {
      return Stats(0.0, 0.0, 0.0, 0.0);
    }
    var best, worst, sum := Extremes(rtts);
    var n := |rtts| as real;
    var avg := sum / n;
    var sq := Deviations(rtts, avg);
    QuotientTimes(sum, n);
    QuotientTimes(sq, n);
    st := Stats(avg, best, worst, sq / n);
  }

  method Extremes(rtts: seq<real>) returns (best: real, worst: real, sum: real)
    requires rtts != []
    ensures IsMin(rtts, best) && IsMax(rtts, worst) && sum == Sum(rtts)
  {
    best, worst, sum := rtts[0], rtts[0], 0.0;
    for k := 0 to |rtts|
      invariant best in rtts && forall i | 0 <= i < k :: best <= rtts[i]
      invariant worst in rtts && forall i | 0 <= i < k :: rtts[i] <= worst
      invariant sum == Sum(rtts[..k])
    {
      assert rtts[..k + 1][..k] == rtts[..k];
      var v := rtts[k];
      sum := sum + v;
      if v < best {
        best := v;
      }
      if v > worst {
        worst := v;
      }
    }
    assert rtts[..|rtts|] == rtts;
  }

  method Deviations(rtts: seq<real>, avg: real) returns (sq: real)
    ensures sq == SquaredDeviations(rtts, avg)
  {
    sq := 0.0;
    for k := 0 to |rtts|
      invariant sq == SquaredDeviations(rtts[..k], avg)
    {
      assert rtts[..k + 1][..k] == rtts[..k];
      var d := rtts[k] - avg;
      sq := sq + d * d;
    }
    assert rtts[..|rtts|] == rtts;
  }

  /** The bound a sample obeys because (worst - v)(v - best) >= 0, with the
      product written out. */
  lemma SampleBound(v: real, best: real, worst: real, about: real)
    requires best <= v <= worst
    ensures (v - about) * (v - about) <= (worst + best - 2.0 * about) * v - (worst * best - about * about)
  {
    ProductNotNegative(worst - v, v - best);
  }

  lemma ProductNotNegative(x: real, y: real)
    requires x >= 0.0 && y >= 0.0
    ensures x * y >= 0.0
  {
  }

  lemma SquareNotNegative(x: real)
    ensures x * x >= 0.0
  {
  }

  lemma LinearStep(p: real, q: real, sum: real, v: real, n: real)
    ensures p * (sum + v) - q * (n + 1.0) == (p * sum - q * n) + (p * v - q)
  {
  }

  lemma OneMore(x: real, n: real)
    ensures x * (n + 1.0) == x * n + x
  {
  }

  /** One more sample within the bounds keeps the sum within them. */
  lemma SumStep(best: real, worst: real, n: real, sum: real, v: real, n': real)
    requires best * n <= sum <= worst * n && best <= v <= worst && n' == n + 1.0
    ensures best * n' <= sum + v <= worst * n'
  {
    OneMore(best, n);
    OneMore(worst, n);
  }

  /** Summed up, the sample bound limits the squared deviations about any point. */
  lemma {:induction false} DeviationBound(s: seq<real>, best: real, worst: real, about: real, p: real, q: real)
    requires forall i | 0 <= i < |s| :: best <= s[i] <= worst
    requires p == worst + best - 2.0 * about && q == worst * best - about * about
    ensures SquaredDeviations(s, about) <= p * Sum(s) - q * (|s| as real)
  {
    if s != [] {
      var n := |s| - 1;
      DeviationBound(s[..n], best, worst, about, p, q);
      SampleBound(s[n], best, worst, about);
      LinearStep(p, q, Sum(s[..n]), s[n], n as real);
      assert |s| as real == (n as real) + 1.0;
    }
  }

  lemma {:induction false} SumBounds(s: seq<real>, best: real, worst: real)
    requires forall i | 0 <= i < |s| :: best <= s[i] <= worst
    ensures best * (|s| as real) <= Sum(s) <= worst * (|s| as real)
  {
    if s != [] {
      var n := |s| - 1;
      SumBounds(s[..n], best, worst);
      SumStep(best, worst, n as real, Sum(s[..n]), s[n], |s| as real);
    }
  }

  lemma {:induction false} DeviationsNotNegative(s: seq<real>, about: real)
    ensures SquaredDeviations(s, about) >= 0.0
  {
    if s != [] {
      DeviationsNotNegative(s[..|s| - 1], about);
      SquareNotNegative(s[|s| - 1] - about);
    }
  }

  lemma Divide(a: real, b: real, n: real)
    requires n > 0.0 && a * n <= b * n
    ensures a <= b
  {
    ScaledDifference(a, b, n);
  }

  lemma ScaledDifference(a: real, b: real, n: real)
    requires n > 0.0
    ensures a > b ==> a * n > b * n
  {
  }

  /** p * avg - q is the product of the two distances to the mean. */
  lemma MeanForm(best: real, worst: real, avg: real, p: real, q: real, n: real)
    requires p == worst + best - 2.0 * avg && q == worst * best - avg * avg
    ensures p * (avg * n) - q * n == (worst - avg) * (avg - best) * n
  {
    assert p * avg - q == (worst - avg) * (avg - best);
    assert p * (avg * n) - q * n == (p * avg - q) * n;
  }

  lemma HalfSpan(a: real, b: real)
    ensures a * b <= (a + b) / 2.0 * ((a + b) / 2.0)
  {
    SquareNotNegative(a - b);
  }

  lemma MeanBetween(s: seq<real>, st: Stats)
    requires s != [] && IsStats(s, st)
    ensures st.best <= st.avg <= st.worst
  {
    var n := |s| as real;
    SumBounds(s, st.best, st.worst);
    Divide(st.best, st.avg, n);
    Divide(st.avg, st.worst, n);
  }

  lemma DeviationCap(s: seq<real>, best: real, worst: real, avg: real, n: real, x: real)
    requires IsMin(s, best) && IsMax(s, worst) && n == |s| as real && avg * n == Sum(s)
    requires x == (worst - avg) * (avg - best)
    ensures 0.0 <= SquaredDeviations(s, avg) <= x * n
  {
    var p, q := worst + best - 2.0 * avg, worst * best - avg * avg;
    DeviationBound(s, best, worst, avg, p, q);
    DeviationsNotNegative(s, avg);
    MeanForm(best, worst, avg, p, q, n);
    assert p * (avg * n) - q * n == p * Sum(s) - q * n;
  }

  lemma VarianceBound(s: seq<real>, st: Stats, n: real, x: real)
    requires s != [] && IsStats(s, st) && n == |s| as real
    requires x == (st.worst - st.avg) * (st.avg - st.best)
    ensures 0.0 <= st.variance <= x
  {
    DeviationCap(s, st.best, st.worst, st.avg, n, x);
    Divide(0.0, st.variance, n);
    Divide(st.variance, x, n);
  }

  /** For every non-empty sample list best <= avg <= worst and
      jitter^2 <= (worst - avg)(avg - best) <= ((worst - best)/2)^2. */
  lemma RttBounds(s: seq<real>, st: Stats)
    requires s != [] && IsStats(s, st)
    ensures st.best <= st.avg <= st.worst
    ensures 0.0 <= st.variance <= (st.worst - st.avg) * (st.avg - st.best)
    ensures (st.worst - st.avg) * (st.avg - st.best) <= (st.worst - st.best) / 2.0 * ((st.worst - st.best) / 2.0)
  {
    MeanBetween(s, st);
    VarianceBound(s, st, |s| as real, (st.worst - st.avg) * (st.avg - st.best));
    HalfSpan(st.worst - st.avg, st.avg - st.best);
    assert st.worst - st.avg + (st.avg - st.best) == st.worst - st.best;
  }

  // ---------------------------------------------------------------------
  // One TTL
  // ---------------------------------------------------------------------

  datatype Kind = NoReply | TimeExceeded | Destination

  /** One probe's outcome; no sender when the reply carried none. */
  datatype Reply = Reply(kind: Kind, from: Option<string>, rttMs: real, destState: string)

  datatype Hop = Hop(ttl: nat, host: string, lossPercent: real, stats: Stats, sent: nat)

  predicate Unspecified(ip: string) {
    ip == "0.0.0.0" || ip == "::"
  }

  /** Who answered: the first sender named, unless the destination answered
      while nobody usable had. */
  function Responder(replies: seq<Reply>, dst: string): Option<string> {
    if replies == [] then None
    else
      var before, r := Responder(replies[..|replies| - 1], dst), replies[|replies| - 1];
      if r.kind == NoReply then before
      else
        var named := if before.None? then r.from else before;
        if r.kind == Destination && (named.None? || Unspecified(named.value)) then Some(dst) else named
  }

  function Answered(replies: seq<Reply>): seq<real> {
    if replies == [] then []
    else
      var r := replies[|replies| - 1];
      Answered(replies[..|replies| - 1]) + if r.kind == NoReply then [] else [r.rttMs]
  }

  predicate Arrived(replies: seq<Reply>) {
    exists i | 0 <= i < |replies| :: replies[i].kind == Destination
  }

  /** What the destination said last; empty while it was silent. */
  function Verdict(replies: seq<Reply>): string {
    if replies == [] then ""
    else if replies[|replies| - 1].kind == Destination then replies[|replies| - 1].destState
    else Verdict(replies[..|replies| - 1])
  }

  function HostOf(replies: seq<Reply>, dst: string): string {
    var responder := Responder(replies, dst);
    if responder.Some? && !Unspecified(responder.value) then responder.value
    else if Arrived(replies) then dst else ""
  }

  /** The share of probes without an answer, in percent. */
  function LossOf(probes: nat, answered: nat): real
    requires probes >= 1
  {
    ((probes - answered) as real) / (probes as real) * 100.0
  }

  /** The aggregate of the probes that were sent before the context ended. */
  ghost predicate IsHop(hop: Hop, ttl: nat, probes: nat, replies: seq<Reply>, dst: string)
    requires probes >= 1
  {
    && hop.ttl == ttl && hop.sent == probes && hop.host == HostOf(replies, dst)
    && hop.lossPercent == LossOf(probes, |Answered(replies)|)
    && IsStats(Answered(replies), hop.stats)
  }

  /** The probe loop; replies lists the outcomes up to a cancellation, if any. */
  method Collect(dst: string, replies: seq<Reply>)
    returns (rtts: seq<real>, responder: Option<string>, arrived: bool, destState: string)
    ensures rtts == Answered(replies) && |rtts| <= |replies|
    ensures responder == Responder(replies, dst) && arrived == Arrived(replies) && destState == Verdict(replies)
  {
    rtts, responder, arrived, destState := [], None, false, "";
    for i := 0 to |replies|
      invariant rtts == Answered(replies[..i]) && |rtts| <= i
      invariant responder == Responder(replies[..i], dst)
      invariant arrived == Arrived(replies[..i])
      invariant destState == Verdict(replies[..i])
    {
      assert replies[..i + 1] == replies[..i] + [replies[i]];
      RepliesSnoc(replies[..i], replies[i], dst);
      ArrivedSnoc(replies[..i], replies[i]);
      var reply := replies[i];
      if reply.kind == NoReply {
        continue;
      }
      rtts := rtts + [reply.rttMs];
      if responder.None? {
        responder := reply.from;
      }
      if reply.kind == Destination {
        arrived := true;
        destState := reply.destState;
        if responder.None? || Unspecified(responder.value) {
          responder := Some(dst);
        }
      }
    }
    assert replies[..|replies|] == replies;
  }

  method ProbeTtl(dst: string, ttl: nat, probes: nat, replies: seq<Reply>) returns (hop: Hop, arrived: bool, destState: string)
    requires 1 <= probes && |replies| <= probes
    ensures IsHop(hop, ttl, probes, replies, dst)
    ensures arrived == Arrived(replies) && destState == Verdict(replies)
  {
    var rtts, responder;
    rtts, responder, arrived, destState := Collect(dst, replies);
    var host := "";
    if responder.Some? && !Unspecified(responder.value) {
      host := responder.value;
    } else if arrived {
      host := dst;
    }
    var st := RttStats(rtts);
    hop := Hop(ttl, host, LossOf(probes, |rtts|), st, probes);
  }

  lemma RepliesSnoc(replies: seq<Reply>, r: Reply, dst: string)
    ensures Answered(replies + [r]) == Answered(replies) + if r.kind == NoReply then [] else [r.rttMs]
    ensures Verdict(replies + [r]) == if r.kind == Destination then r.destState else Verdict(replies)
    ensures var before := Responder(replies, dst);
            var named := if before.None? then r.from else before;
            Responder(replies + [r], dst) ==
            if r.kind == NoReply then before
            else if r.kind == Destination && (named.None? || Unspecified(named.value)) then Some(dst) else named
  {
    assert (replies + [r])[..|replies|] == replies;
  }

  lemma ArrivedSnoc(replies: seq<Reply>, r: Reply)
    ensures Arrived(replies + [r]) <==> Arrived(replies) || r.kind == Destination
  {
    var longer := replies + [r];
    assert longer[|replies|] == r;
    if i :| 0 <= i < |replies| && replies[i].kind == Destination {
      assert longer[i].kind == Destination;
    }
  }

  lemma {:induction false} AnsweredExact(replies: seq<Reply>, dst: string)
    ensures |Answered(replies)| <= |replies|
    ensures Answered(replies) == [] <==> forall i | 0 <= i < |replies| :: replies[i].kind == NoReply
    ensures Responder(replies, dst).Some? || Arrived(replies) ==> Answered(replies) != []
  {
    if replies != [] {
      var init, r := replies[..|replies| - 1], replies[|replies| - 1];
      AnsweredExact(init, dst);
      assert replies == init + [r];
      ArrivedSnoc(init, r);
    }
  }

  /** A reply that tells who answered: it names a sender or is the destination's. */
  predicate Speaks(r: Reply) {
    r.kind != NoReply && (r.from.Some? || r.kind == Destination)
  }

  /** The first i replies tell nothing, the next one does. */
  ghost predicate FirstSpeaker(replies: seq<Reply>, i: nat) {
    i < |replies| && Speaks(replies[i]) && forall j | 0 <= j < i :: !Speaks(replies[j])
  }

  lemma {:induction false} NobodySpoke(replies: seq<Reply>, dst: string)
    requires forall r | r in replies :: !Speaks(r)
    ensures Responder(replies, dst) == None && !Arrived(replies) && HostOf(replies, dst) == ""
  {
    if replies != [] {
      var n := |replies| - 1;
      assert replies[n] in replies;
      assert forall r | r in replies[..n] :: r in replies;
      NobodySpoke(replies[..n], dst);
      assert replies == replies[..n] + [replies[n]];
      ArrivedSnoc(replies[..n], replies[n]);
    }
  }

  lemma {:induction false} ResponderExact(replies: seq<Reply>, dst: string, i: nat)
    requires FirstSpeaker(replies, i)
    ensures var named := replies[i].from.GetOr(dst);
            Responder(replies, dst) == Some(if Unspecified(named) && Arrived(replies) then dst else named)
  {
    var n := |replies| - 1;
    var init, r := replies[..n], replies[n];
    assert replies == init + [r];
    ArrivedSnoc(init, r);
    RepliesSnoc(init, r, dst);
    if i == n {
      assert forall x | x in init :: !Speaks(x);
      NobodySpoke(init, dst);
    } else {
      assert init[i] == replies[i];
      ResponderExact(init, dst, i);
    }
  }

  /** The hop's host: the sender named by the first reply that tells who answered,
      the destination when that is no usable address but the destination was
      reached, and nobody otherwise. */
  lemma HostExact(replies: seq<Reply>, dst: string, i: nat)
    requires FirstSpeaker(replies, i)
    ensures var named := replies[i].from.GetOr(dst);
            HostOf(replies, dst) == if !Unspecified(named) then named else if Arrived(replies) then dst else ""
  {
    ResponderExact(replies, dst, i);
  }

  /** The samples in order: the i-th reply, if it is an answer, has its time at the
      place given by the answers before it. */
  lemma {:induction false} AnsweredInOrder(replies: seq<Reply>, i: nat)
    requires i < |replies|
    ensures |Answered(replies[..i])| <= |Answered(replies)|
    ensures replies[i].kind != NoReply ==>
              |Answered(replies[..i])| < |Answered(replies)| && Answered(replies)[|Answered(replies[..i])|] == replies[i].rttMs
  {
    var n := |replies| - 1;
    if i < n {
      AnsweredInOrder(replies[..n], i);
      assert replies[..n][..i] == replies[..i];
    }
  }

  /** Which replies are answers. */
  ghost function Answers(replies: seq<Reply>): set<int> {
    set i | 0 <= i < |replies| && replies[i].kind != NoReply
  }

  lemma AnswersSnoc(replies: seq<Reply>, r: Reply)
    ensures Answers(replies + [r]) == Answers(replies) + if r.kind != NoReply then {|replies|} else {}
  {
  }

  /** And there are as many samples as answers. */
  lemma {:induction false} AnsweredCount(replies: seq<Reply>)
    ensures |Answered(replies)| == |Answers(replies)|
  {
    if replies == [] {
      assert Answers(replies) == {};
    } else {
      var init, r := replies[..|replies| - 1], replies[|replies| - 1];
      AnsweredCount(init);
      assert replies == init + [r];
      AnswersSnoc(init, r);
    }
  }

  /** The verdict is the destination's last word, and empty while it was silent. */
  lemma {:induction false} VerdictExact(replies: seq<Reply>, i: nat)
    requires forall j | i < j < |replies| :: replies[j].kind != Destination
    ensures i < |replies| && replies[i].kind == Destination ==> Verdict(replies) == replies[i].destState
    ensures !Arrived(replies) ==> Verdict(replies) == ""
  {
    if replies != [] {
      var init := replies[..|replies| - 1];
      assert forall j | 0 <= j < |init| :: init[j] == replies[j];
      assert Arrived(init) ==> Arrived(replies) by {
        if j :| 0 <= j < |init| && init[j].kind == Destination {
          assert replies[j].kind == Destination;
        }
      }
      VerdictExact(init, i);
    }
  }

  /** A loss in percent is the unanswered share of all probes. */
  ghost predicate IsLoss(loss: real, probes: nat, replies: seq<Reply>) {
    loss * (probes as real) == 100.0 * ((probes - |Answers(replies)|) as real)
  }

  lemma LossExact(hop: Hop, ttl: nat, probes: nat, replies: seq<Reply>, dst: string)
    requires 1 <= probes && IsHop(hop, ttl, probes, replies, dst)
    ensures IsLoss(hop.lossPercent, probes, replies)
  {
    SharesAreLosses(probes, replies);
  }

  lemma SharesAreLosses(probes: nat, replies: seq<Reply>)
    requires 1 <= probes
    ensures IsLoss(LossOf(probes, |Answered(replies)|), probes, replies)
  {
    AnsweredCount(replies);
    LossOfExact(probes, |Answered(replies)|);
  }

  lemma LossOfExact(probes: nat, answered: nat)
    requires 1 <= probes
    ensures LossOf(probes, answered) * (probes as real) == 100.0 * ((probes - answered) as real)
  {
    var n, lost := probes as real, (probes - answered) as real;
    QuotientTimes(lost, n);
    Rescale(lost / n, n, lost);
  }

  lemma Rescale(x: real, n: real, y: real)
    requires x * n == y
    ensures x * 100.0 * n == 100.0 * y
  {
    assert x * 100.0 * n == 100.0 * (x * n);
  }

  /** Loss is a percentage, it is 100 exactly when nothing came back, and a hop
      with a host did answer. */
  lemma HopBounds(hop: Hop, ttl: nat, probes: nat, replies: seq<Reply>, dst: string)
    requires 1 <= probes && |replies| <= probes && IsHop(hop, ttl, probes, replies, dst)
    ensures 0.0 <= hop.lossPercent <= 100.0
    ensures hop.lossPercent == 100.0 <==> forall i | 0 <= i < |replies| :: replies[i].kind == NoReply
    ensures hop.host != "" && dst != "" ==> hop.lossPercent < 100.0
  {
    AnsweredExact(replies, dst);
    LossBounds(probes, |Answered(replies)|);
  }

  lemma LossBounds(probes: nat, got: nat)
    requires got <= probes && 1 <= probes
    ensures 0.0 <= LossOf(probes, got) <= 100.0 && (LossOf(probes, got) == 100.0 <==> got == 0)
  {
    var n, lost := probes as real, (probes - got) as real;
    assert 0.0 <= lost == n - (got as real);
    QuotientTimes(lost, n);
    ShareBounds(lost / n, lost, n);
  }

  lemma ShareBounds(share: real, lost: real, n: real)
    requires n > 0.0 && share * n == lost && 0.0 <= lost <= n
    ensures 0.0 <= share <= 1.0 && (share == 1.0 <==> lost == n)
  {
    ScaledDifference(0.0, share, n);
    ScaledDifference(share, 0.0, n);
    ScaledDifference(share, 1.0, n);
    ScaledDifference(1.0, share, n);
  }

  // ---------------------------------------------------------------------
  // The trace
  // ---------------------------------------------------------------------

  datatype Trace = Trace(reached: bool, status: string, failureHop: nat, rttMs: real, hops: seq<Hop>,
                         destState: string, targetIp: string)

  /** A hop the stall scan may stop at. */
  predicate Responding(hop: Hop) {
    hop.host != "" && hop.lossPercent < 100.0
  }

  ghost predicate GreatestResponding(hops: seq<Hop>, ttl: nat) {
    && (ttl == 0 || (1 <= ttl <= |hops| && Responding(hops[ttl - 1])))
    && forall k | ttl <= k < |hops| :: !Responding(hops[k])
  }

  function OrDefault(n: nat, default_: nat): nat {
    if n == 0 then default_ else n
  }

  const DEFAULT_MAX_HOPS: nat := 30
  const DEFAULT_PROBES: nat := 5

  /** What a finished trace says about the replies it got; probed[ttl - 1] lists
      those at each TTL. */
  ghost predicate IsTrace(t: Trace, dst: string, n: nat, probes: nat, probed: seq<seq<Reply>>)
    requires |probed| == n && probes >= 1
  {
    var last := |t.hops| - 1;
    && |t.hops| <= n
    && (forall k | 0 <= k <= last :: IsHop(t.hops[k], k + 1, probes, probed[k], dst))
    && (forall k | 0 <= k < last :: !Arrived(probed[k]))
    && if t.reached then
         && t.status == "reached" && last >= 0 && Arrived(probed[last]) && t.failureHop == 0
         && t.destState == Verdict(probed[last]) && t.rttMs == t.hops[last].stats.avg
         && t.targetIp == if t.hops[last].host != "" then t.hops[last].host else dst
       else
         && t.status == "stalled" && |t.hops| == n && (n > 0 ==> !Arrived(probed[last]))
         && t.destState == "filtered" && t.targetIp == dst && GreatestResponding(t.hops, t.failureHop)
         && t.rttMs == if t.failureHop == 0 then 0.0 else t.hops[t.failureHop - 1].stats.avg
  }

  /** The first hops, none of which reached the destination. */
  ghost predicate OnTheWay(hops: seq<Hop>, dst: string, probes: nat, probed: seq<seq<Reply>>)
    requires probes >= 1
  {
    && |hops| <= |probed|
    && forall k | 0 <= k < |hops| :: IsHop(hops[k], k + 1, probes, probed[k], dst) && !Arrived(probed[k])
  }

  lemma ReachedTrace(hops: seq<Hop>, hop: Hop, dst: string, probes: nat, probed: seq<seq<Reply>>, target: string)
    requires probes >= 1 && OnTheWay(hops, dst, probes, probed) && |hops| < |probed|
    requires IsHop(hop, |hops| + 1, probes, probed[|hops|], dst) && Arrived(probed[|hops|])
    requires target == if hop.host != "" then hop.host else dst
    ensures IsTrace(Trace(true, "reached", 0, hop.stats.avg, hops + [hop], Verdict(probed[|hops|]), target),
                    dst, |probed|, probes, probed)
  {
  }

  lemma StalledTrace(hops: seq<Hop>, dst: string, probes: nat, probed: seq<seq<Reply>>, failureHop: nat, rttMs: real)
    requires probes >= 1 && OnTheWay(hops, dst, probes, probed) && |hops| == |probed|
    requires GreatestResponding(hops, failureHop)
    requires rttMs == if failureHop == 0 then 0.0 else hops[failureHop - 1].stats.avg
    ensures IsTrace(Trace(false, "stalled", failureHop, rttMs, hops, "filtered", dst), dst, |probed|, probes, probed)
  {
  }

  /** None when the context is found ended before TTL `endsAt` is probed. */
  method RunTrace(dst: string, maxHops: nat, probes: nat, probed: seq<seq<Reply>>, endsAt: nat) returns (t: Option<Trace>)
    requires |probed| == OrDefault(maxHops, DEFAULT_MAX_HOPS)
    requires forall k | 0 <= k < |probed| :: |probed[k]| <= OrDefault(probes, DEFAULT_PROBES)
    ensures t.Some? ==> IsTrace(t.value, dst, |probed|, OrDefault(probes, DEFAULT_PROBES), probed)
    ensures t.None? <==> 1 <= endsAt <= |probed| && forall k | 0 <= k < endsAt - 1 :: !Arrived(probed[k])
  {
    var n, perHop := OrDefault(maxHops, DEFAULT_MAX_HOPS), OrDefault(probes, DEFAULT_PROBES);
    var hops: seq<Hop> := [];
    for ttl := 1 to n + 1
      invariant |hops| == ttl - 1
      invariant 1 <= endsAt ==> ttl <= endsAt
      invariant OnTheWay(hops, dst, perHop, probed)
    {
      if ttl == endsAt {
        return None;
      }
      var hop, arrived, state := ProbeTtl(dst, ttl, perHop, probed[ttl - 1]);
      if arrived {
        var target := if hop.host != "" then hop.host else dst;
        ReachedTrace(hops, hop, dst, perHop, probed, target);
        return Some(Trace(true, "reached", 0, hop.stats.avg, hops + [hop], state, target));
      }
      hops := hops + [hop];
    }
    var failureHop, rttMs := StallScan(hops);
    StalledTrace(hops, dst, perHop, probed, failureHop, rttMs);
    t := Some(Trace(false, "stalled", failureHop, rttMs, hops, "filtered", dst));
  }

  method StallScan(hops: seq<Hop>) returns (failureHop: nat, rttMs: real)
    requires forall k | 0 <= k < |hops| :: hops[k].ttl == k + 1
    ensures GreatestResponding(hops, failureHop)
    ensures rttMs == if failureHop == 0 then 0.0 else hops[failureHop - 1].stats.avg
  {
    var i := |hops| - 1;
    while i >= 0
      invariant -1 <= i < |hops|
      invariant forall k | i < k < |hops| :: !Responding(hops[k])
    {
      if hops[i].host != "" && hops[i].lossPercent < 100.0 {
        return hops[i].ttl, hops[i].stats.avg;
      }
      i := i - 1;
    }
    return 0, 0.0;
  }

  lemma QuietHop(hop: Hop, ttl: nat, probes: nat, replies: seq<Reply>, dst: string)
    requires dst != "" && 1 <= probes && |replies| <= probes && IsHop(hop, ttl, probes, replies, dst)
    requires !Responding(hop)
    ensures HostOf(replies, dst) == ""
  {
    HopBounds(hop, ttl, probes, replies, dst);
  }

  /** The hops of a stalled trace, one at a time. */
  lemma StalledHop(t: Trace, dst: string, n: nat, probes: nat, probed: seq<seq<Reply>>, k: nat)
    requires 1 <= probes && |probed| == n && IsTrace(t, dst, n, probes, probed) && !t.reached && k < n
    ensures |t.hops| == n && t.failureHop <= n && IsHop(t.hops[k], k + 1, probes, probed[k], dst)
    ensures t.failureHop <= k ==> !Responding(t.hops[k])
    ensures t.failureHop == k + 1 ==> Responding(t.hops[k])
  {
  }

  /** On a stalled trace FailureHop is the greatest TTL anyone answered at with
      an address: the loss test of the scan never rules one out. */
  lemma FailureHopIsLastAnswer(t: Trace, dst: string, n: nat, probes: nat, probed: seq<seq<Reply>>)
    requires dst != "" && 1 <= probes && |probed| == n && forall k | 0 <= k < n :: |probed[k]| <= probes
    requires IsTrace(t, dst, n, probes, probed) && !t.reached
    ensures t.failureHop <= n && forall k | t.failureHop <= k < n :: HostOf(probed[k], dst) == ""
    ensures t.failureHop > 0 ==> HostOf(probed[t.failureHop - 1], dst) != ""
  {
    if t.failureHop > 0 {
      assert t.failureHop <= |t.hops|;
      StalledHop(t, dst, n, probes, probed, t.failureHop - 1);
    }
    forall k | t.failureHop <= k < n
      ensures HostOf(probed[k], dst) == ""
    {
      StalledHop(t, dst, n, probes, probed, k);
      QuietHop(t.hops[k], k + 1, probes, probed[k], dst);
    }
  }
}
