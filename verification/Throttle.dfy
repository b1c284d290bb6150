/** The authentication throttle. Times are nanoseconds from one monotone clock. */
module Throttle {
  import opened Sequences

  const MAX_FAILURES: nat := 10
  const WINDOW := 60_000_000_000

  datatype Entry = Entry(failures: nat, first: int)

  datatype Op = Allow | Fail | Success

  datatype Event = Event(op: Op, key: string, now: int)

  /** The window of an entry has passed. */
  predicate Stale(e: Entry, now: int) {
    now - e.first > WINDOW
  }

  function Pruned(entries: map<string, Entry>, now: int): map<string, Entry> {
    map k | k in entries && !Stale(entries[k], now) :: entries[k]
  }

  function Counted(entries: map<string, Entry>, key: string, now: int): Entry {
    if key !in entries || Stale(entries[key], now) then Entry(1, now)
    else Entry(entries[key].failures + 1, entries[key].first)
  }

  /** The map after one call, and its answer: may another attempt be made, did
      this failure use up the budget. */
  function Step(entries: map<string, Entry>, e: Event): (map<string, Entry>, bool) {
    match e.op
    case Allow =>
      var kept := Pruned(entries, e.now);
      (kept, e.key !in kept || kept[e.key].failures < MAX_FAILURES)
    case Fail =>
      var counted := Counted(entries, e.key, e.now);
      (entries[e.key := counted], counted.failures == MAX_FAILURES)
    case Success => (entries - {e.key}, true)
  }

  function Run(es: seq<Event>): map<string, Entry> {
    if es == [] then map[] else Step(Run(es[..|es| - 1]), es[|es| - 1]).0
  }

  class Throttle {
    var entries: map<string, Entry>

    constructor ()
      ensures entries == map[]
    {
      entries := map[];
    }

    method Allow(key: string, now: int) returns (ok: bool)
      modifies this
      ensures (entries, ok) == Step(old(entries), Event(Op.Allow, key, now))
    {
      var todo := entries.Keys;
      while todo != {}
        invariant todo <= old(entries).Keys
        invariant entries == map k | k in old(entries) && (k in todo || !Stale(old(entries)[k], now)) :: old(entries)[k]
      {
        var k :| k in todo;
        todo := todo - {k};
        if now - entries[k].first > WINDOW {
          entries := entries - {k};
        }
      }
      assert entries == Pruned(old(entries), now);
      ok := key !in entries || entries[key].failures < MAX_FAILURES;
    }

    method Fail(key: string, now: int) returns (tripped: bool)
      modifies this
      ensures (entries, tripped) == Step(old(entries), Event(Op.Fail, key, now))
    {
      var e := if key in entries && !(now - entries[key].first > WINDOW) then entries[key] else Entry(0, now);
      e := e.(failures := e.failures + 1);
      entries := entries[key := e];
      tripped := e.failures == MAX_FAILURES;
    }

    method Success(key: string)
      modifies this
      ensures entries == Step(old(entries), Event(Op.Success, key, 0)).0
    {
      entries := entries - {key};
    }
  }

  ghost predicate Monotone(es: seq<Event>) {
    forall i, j | 0 <= i < j < |es| :: es[i].now <= es[j].now
  }

  // ---------------------------------------------------------------------
  // Pruning is unobservable
  // ---------------------------------------------------------------------

  /** The same throttle without pruning: stale entries are only ignored. */
  function LazyStep(entries: map<string, Entry>, e: Event): (map<string, Entry>, bool) {
    match e.op
    case Allow => (entries, e.key !in entries || Stale(entries[e.key], e.now) || entries[e.key].failures < MAX_FAILURES)
    case Fail => Step(entries, e)
    case Success => Step(entries, e)
  }

  function LazyRun(es: seq<Event>): map<string, Entry> {
    if es == [] then map[] else LazyStep(LazyRun(es[..|es| - 1]), es[|es| - 1]).0
  }

  /** The maps differ only in entries that are stale by `now`. */
  ghost predicate SameFresh(a: map<string, Entry>, b: map<string, Entry>, now: int) {
    && (forall k | k in a && !Stale(a[k], now) :: k in b && b[k] == a[k])
    && (forall k | k in b && !Stale(b[k], now) :: k in a && a[k] == b[k])
  }

  lemma StepSameFresh(a: map<string, Entry>, b: map<string, Entry>, e: Event)
    requires SameFresh(a, b, e.now)
    ensures SameFresh(Step(a, e).0, LazyStep(b, e).0, e.now)
    ensures Step(a, e).1 == LazyStep(b, e).1
  {
  }

  lemma FreshLater(a: map<string, Entry>, b: map<string, Entry>, t: int, now: int)
    requires SameFresh(a, b, t) && t <= now
    ensures SameFresh(a, b, now)
  {
  }

  /** Pruning never changes any answer: over every run with a monotone clock the
      throttle answers as the one that never prunes. */
  lemma {:induction false} PruningIsUnobservable(es: seq<Event>, k: nat)
    requires Monotone(es) && k <= |es|
    ensures k > 0 ==> SameFresh(Run(es[..k]), LazyRun(es[..k]), es[k - 1].now)
    ensures k < |es| ==> Step(Run(es[..k]), es[k]).1 == LazyStep(LazyRun(es[..k]), es[k]).1
  {
    if k > 0 {
      PruningIsUnobservable(es, k - 1);
      assert es[..k][..k - 1] == es[..k - 1];
      var a, b := Run(es[..k - 1]), LazyRun(es[..k - 1]);
      if k > 1 {
        FreshLater(a, b, es[k - 2].now, es[k - 1].now);
      }
      StepSameFresh(a, b, es[k - 1]);
    }
    if k < |es| {
      if k > 0 {
        FreshLater(Run(es[..k]), LazyRun(es[..k]), es[k - 1].now, es[k].now);
      }
      StepSameFresh(Run(es[..k]), LazyRun(es[..k]), es[k]);
    }
  }

  // ---------------------------------------------------------------------
  // The bound
  // ---------------------------------------------------------------------

  /** An allow for the key has said yes and no failure has been recorded since. */
  predicate Ready(es: seq<Event>, key: string) {
    if es == [] then false
    else
      var init, e := es[..|es| - 1], es[|es| - 1];
      if e.key == key && e.op == Allow then Step(Run(init), e).1 || Ready(init, key)
      else if e.key == key && e.op == Fail then false
      else Ready(init, key)
  }

  /** Every failure of the key was allowed first, and the key never succeeds. */
  predicate Guarded(es: seq<Event>, key: string) {
    if es == [] then true
    else
      var init, e := es[..|es| - 1], es[|es| - 1];
      Guarded(init, key) && (e.key == key ==> e.op != Success && (e.op == Fail ==> Ready(init, key)))
  }

  /** Failures of the key in the closed interval of one window from a. */
  function FailuresIn(es: seq<Event>, key: string, a: int): nat {
    if es == [] then 0
    else
      var e := es[|es| - 1];
      FailuresIn(es[..|es| - 1], key, a) + if e.key == key && e.op == Fail && a <= e.now <= a + WINDOW then 1 else 0
  }

  /** The key's latest counting window: where it began, how many failures it
      has counted, and how the failures in the interval split between windows
      that began before the interval and within it. */
  datatype Track = Track(start: Option<int>, count: nat, before: nat, within: nat)

  function TrackOf(es: seq<Event>, key: string, a: int): Track {
    if es == [] then Track(None, 0, 0, 0)
    else
      var t, e := TrackOf(es[..|es| - 1], key, a), es[|es| - 1];
      if e.key != key || e.op != Fail then t
      else
        var renewed := t.start.None? || e.now - t.start.value > WINDOW;
        var start, count := if renewed then e.now else t.start.value, if renewed then 1 else t.count + 1;
        var inside := a <= e.now <= a + WINDOW;
        Track(Some(start), count, if inside && start < a then t.before + 1 else t.before,
              if inside && start >= a then t.within + 1 else t.within)
  }

  /** The track agrees with the map, whose entry may have been pruned once stale. */
  ghost predicate Agrees(entries: map<string, Entry>, key: string, t: Track, last: int) {
    if key in entries then t.start == Some(entries[key].first) && t.count == entries[key].failures
    else t.start.None? || last - t.start.value > WINDOW
  }

  /** At most one window began before the interval and reaches into it, and at
      most one begins within it. */
  ghost predicate Bounded(t: Track, a: int, last: int) {
    match t.start
    case None => t.before == 0 && t.within == 0
    case Some(start) =>
      && 1 <= t.count <= MAX_FAILURES && start <= last
      && t.before <= MAX_FAILURES - 1 && t.within <= MAX_FAILURES
      && (last < a ==> t.before == 0)
      && (start < a ==> t.within == 0 && t.before <= t.count - 1)
      && (a <= start <= a + WINDOW ==> t.within <= t.count)
  }

  lemma FailBounded(entries: map<string, Entry>, t: Track, es: seq<Event>, e: Event, a: int, last: int)
    requires es != [] && es[|es| - 1] == e && e.op == Fail && TrackOf(es[..|es| - 1], e.key, a) == t
    requires Agrees(entries, e.key, t, last) && Bounded(t, a, last) && last <= e.now
    requires e.key in entries ==> entries[e.key].failures < MAX_FAILURES
    ensures Agrees(Step(entries, e).0, e.key, TrackOf(es, e.key, a), e.now)
    ensures Bounded(TrackOf(es, e.key, a), a, e.now)
  {
  }

  lemma OtherBounded(t: Track, a: int, last: int, now: int)
    requires Bounded(t, a, last) && last <= now
    ensures Bounded(t, a, now)
  {
  }

  lemma {:induction false} TrackHolds(es: seq<Event>, key: string, a: int)
    requires es != [] && Monotone(es) && Guarded(es, key)
    ensures Agrees(Run(es), key, TrackOf(es, key, a), es[|es| - 1].now)
    ensures Bounded(TrackOf(es, key, a), a, es[|es| - 1].now)
    ensures Ready(es, key) && key in Run(es) ==> Run(es)[key].failures < MAX_FAILURES
    ensures FailuresIn(es, key, a) == TrackOf(es, key, a).before + TrackOf(es, key, a).within
  {
    var n := |es| - 1;
    if n > 0 {
      TrackHolds(es[..n], key, a);
      assert es[n - 1].now <= es[n].now;
      TrackStep(es, key, a, es[n - 1].now);
    } else {
      TrackStep(es, key, a, es[n].now);
    }
  }

  lemma TrackStep(es: seq<Event>, key: string, a: int, last: int)
    requires es != [] && Guarded(es, key) && last <= es[|es| - 1].now
    requires var init := es[..|es| - 1];
             && Agrees(Run(init), key, TrackOf(init, key, a), last) && Bounded(TrackOf(init, key, a), a, last)
             && (Ready(init, key) && key in Run(init) ==> Run(init)[key].failures < MAX_FAILURES)
             && FailuresIn(init, key, a) == TrackOf(init, key, a).before + TrackOf(init, key, a).within
    ensures Agrees(Run(es), key, TrackOf(es, key, a), es[|es| - 1].now)
    ensures Bounded(TrackOf(es, key, a), a, es[|es| - 1].now)
    ensures Ready(es, key) && key in Run(es) ==> Run(es)[key].failures < MAX_FAILURES
    ensures FailuresIn(es, key, a) == TrackOf(es, key, a).before + TrackOf(es, key, a).within
  {
    var init, e := es[..|es| - 1], es[|es| - 1];
    if e.key == key && e.op == Fail {
      FailBounded(Run(init), TrackOf(init, key, a), es, e, a, last);
    } else {
      OtherBounded(TrackOf(init, key, a), a, last, e.now);
    }
  }

  /** In any interval of one window's length a key whose failures were all
      allowed fails at most 2 * MAX_FAILURES - 1 times. */
  lemma ThrottleBound(es: seq<Event>, key: string, a: int)
    requires Monotone(es) && Guarded(es, key)
    ensures FailuresIn(es, key, a) <= 2 * MAX_FAILURES - 1
  {
    if es != [] {
      TrackHolds(es, key, a);
    }
  }

  // ---------------------------------------------------------------------
  // The bound is attained
  // ---------------------------------------------------------------------

  /** k attempts at one moment, each allowed and then failing. */
  function Burst(key: string, t: int, k: nat): seq<Event> {
    if k == 0 then [] else Burst(key, t, k - 1) + [Event(Allow, key, t), Event(Fail, key, t)]
  }

  predicate Live(entries: map<string, Entry>, key: string, t: int) {
    key in entries && !Stale(entries[key], t)
  }

  function Spent(entries: map<string, Entry>, key: string, t: int): nat {
    if Live(entries, key, t) then entries[key].failures else 0
  }

  lemma AttemptStep(es: seq<Event>, key: string, t: int, a: int)
    requires Guarded(es, key) && Spent(Run(es), key, t) < MAX_FAILURES
    ensures var next := es + [Event(Allow, key, t), Event(Fail, key, t)];
            && Guarded(next, key) && Live(Run(next), key, t)
            && Run(next)[key] == Entry(Spent(Run(es), key, t) + 1, if Live(Run(es), key, t) then Run(es)[key].first else t)
            && FailuresIn(next, key, a) == FailuresIn(es, key, a) + if a <= t <= a + WINDOW then 1 else 0
  {
    var allow, fail := Event(Allow, key, t), Event(Fail, key, t);
    var next := es + [allow, fail];
    assert next[..|next| - 1] == es + [allow] && (es + [allow])[..|es|] == es;
  }

  lemma {:induction false} BurstSpends(es: seq<Event>, key: string, t: int, k: nat, a: int)
    requires Guarded(es, key) && 1 <= k && Spent(Run(es), key, t) + k <= MAX_FAILURES
    ensures var next := es + Burst(key, t, k);
            && Guarded(next, key) && Live(Run(next), key, t)
            && Run(next)[key] == Entry(Spent(Run(es), key, t) + k, if Live(Run(es), key, t) then Run(es)[key].first else t)
            && FailuresIn(next, key, a) == FailuresIn(es, key, a) + if a <= t <= a + WINDOW then k else 0
    decreases k
  {
    ConcatAssociates(es, Burst(key, t, k - 1), [Event(Allow, key, t), Event(Fail, key, t)]);
    if k > 1 {
      BurstSpends(es, key, t, k - 1, a);
    } else {
      assert es + Burst(key, t, 0) == es;
    }
    AttemptStep(es + Burst(key, t, k - 1), key, t, a);
  }

  lemma {:induction false} BurstTimes(key: string, t: int, k: nat)
    ensures forall i | 0 <= i < |Burst(key, t, k)| :: Burst(key, t, k)[i].now == t
  {
    if k > 0 {
      BurstTimes(key, t, k - 1);
    }
  }

  /** One failure opens a window, nine more land just before it passes and ten
      right after: nineteen within one window's length, all of them allowed. */
  lemma BoundIsAttained(key: string)
    ensures var es := Burst(key, 0, 1) + Burst(key, WINDOW, MAX_FAILURES - 1) + Burst(key, WINDOW + 1, MAX_FAILURES);
            Monotone(es) && Guarded(es, key) && FailuresIn(es, key, 1) == 2 * MAX_FAILURES - 1
  {
    var b1, b2, b3 := Burst(key, 0, 1), Burst(key, WINDOW, MAX_FAILURES - 1), Burst(key, WINDOW + 1, MAX_FAILURES);
    assert [] + b1 == b1;
    BurstSpends([], key, 0, 1, 1);
    BurstSpends(b1, key, WINDOW, MAX_FAILURES - 1, 1);
    BurstSpends(b1 + b2, key, WINDOW + 1, MAX_FAILURES, 1);
    BurstTimes(key, 0, 1);
    BurstTimes(key, WINDOW, MAX_FAILURES - 1);
    BurstTimes(key, WINDOW + 1, MAX_FAILURES);
    ThreeMoments(b1, b2, b3, 0, WINDOW, WINDOW + 1);
  }

  lemma ThreeMoments(b1: seq<Event>, b2: seq<Event>, b3: seq<Event>, t1: int, t2: int, t3: int)
    requires t1 <= t2 <= t3
    requires (forall i | 0 <= i < |b1| :: b1[i].now == t1) && (forall i | 0 <= i < |b2| :: b2[i].now == t2)
    requires forall i | 0 <= i < |b3| :: b3[i].now == t3
    ensures Monotone(b1 + b2 + b3)
  {
  }

  // ---------------------------------------------------------------------
  // What the answers mean
  // ---------------------------------------------------------------------

  /** An attempt is allowed iff fewer than ten failures are held against the key. */
  lemma AllowedExactly(es: seq<Event>, key: string, now: int)
    ensures Step(Run(es), Event(Allow, key, now)).1 <==> Spent(Run(es), key, now) < 10
  {
  }

  /** A failure is reported as the one that used up the budget iff nine were held
      before it, and then no attempt is allowed until the window has passed. */
  lemma TenthFailureTrips(es: seq<Event>, key: string, now: int, later: int)
    requires now <= later
    ensures var (entries, tripped) := Step(Run(es), Event(Fail, key, now));
            && (tripped <==> Spent(Run(es), key, now) == 9)
            && Spent(entries, key, now) == Spent(Run(es), key, now) + 1
            && (tripped ==>
                  (Step(entries, Event(Allow, key, later)).1 <==>
                   later - (if Live(Run(es), key, now) then Run(es)[key].first else now) > 60_000_000_000))
  {
  }

  /** A success gives the key its whole budget back, whatever came before, and
      leaves every other key as it was. */
  lemma SuccessClears(es: seq<Event>, key: string, now: int, other: string, later: int)
    ensures Spent(Run(es + [Event(Success, key, now)]), key, later) == 0
    ensures other != key ==> Spent(Run(es + [Event(Success, key, now)]), other, later) == Spent(Run(es), other, later)
  {
    assert (es + [Event(Success, key, now)])[..|es|] == es;
  }

  // ---------------------------------------------------------------------
  // When the limit itself is kept
  // ---------------------------------------------------------------------

  ghost predicate AllBefore(es: seq<Event>, a: int) {
    forall i | 0 <= i < |es| :: es[i].now < a
  }

  ghost predicate AllFrom(es: seq<Event>, a: int) {
    forall i | 0 <= i < |es| :: a <= es[i].now
  }

  /** `after` may follow `before` from time a on. */
  ghost predicate MayFollow(before: seq<Event>, after: seq<Event>, key: string, a: int) {
    Monotone(before + after) && Guarded(before + after, key) && AllFrom(after, a)
  }

  /** Whatever follows, the interval of one window from a sees at most the
      limit. */
  ghost predicate LimitKept(before: seq<Event>, key: string, a: int) {
    forall after | MayFollow(before, after, key, a) :: FailuresIn(before + after, key, a) <= MAX_FAILURES
  }

  /** No window that began before the interval has counted in it, and one that
      still reaches into it is used up. */
  ghost predicate UsedUp(t: Track, a: int) {
    && t.before == 0
    && (t.start.Some? && t.start.value < a && a - t.start.value <= WINDOW ==> t.count >= MAX_FAILURES)
  }

  /** The exact condition for the documented limit: at the start of the interval
      the key has no live entry, or one that is used up. */
  lemma LimitKeptIff(before: seq<Event>, key: string, a: int)
    requires Monotone(before) && Guarded(before, key) && AllBefore(before, a)
    ensures LimitKept(before, key, a) <==> Spent(Run(before), key, a) == 0 || Spent(Run(before), key, a) >= MAX_FAILURES
  {
    var spent := Spent(Run(before), key, a);
    if 0 < spent < MAX_FAILURES {
      var after := TwoBursts(before, key, a);
      assert !LimitKept(before, key, a);
    } else {
      forall after | MayFollow(before, after, key, a)
        ensures FailuresIn(before + after, key, a) <= MAX_FAILURES
      {
        StaysUsedUp(before, after, key, a);
        var es := before + after;
        if es != [] {
          TrackHolds(es, key, a);
        }
      }
    }
  }

  lemma PrefixFollows(before: seq<Event>, after: seq<Event>, key: string, a: int)
    requires after != [] && MayFollow(before, after, key, a)
    ensures MayFollow(before, after[..|after| - 1], key, a)
    ensures (before + after)[..|before + after| - 1] == before + after[..|after| - 1]
  {
    var es, init := before + after, before + after[..|after| - 1];
    assert es[..|es| - 1] == init;
    assert forall i | 0 <= i < |init| :: init[i] == es[i];
  }

  lemma {:induction false} StaysUsedUp(before: seq<Event>, after: seq<Event>, key: string, a: int)
    requires Monotone(before) && Guarded(before, key) && AllBefore(before, a)
    requires Spent(Run(before), key, a) == 0 || Spent(Run(before), key, a) >= MAX_FAILURES
    requires MayFollow(before, after, key, a)
    ensures UsedUp(TrackOf(before + after, key, a), a)
    decreases |after|
  {
    if after == [] {
      assert before + after == before;
      if before != [] {
        TrackHolds(before, key, a);
        UsedUpAtStart(Run(before), TrackOf(before, key, a), key, a, before[|before| - 1].now);
      }
    } else {
      PrefixFollows(before, after, key, a);
      StaysUsedUp(before, after[..|after| - 1], key, a);
      UsedUpStep(before + after, key, a);
    }
  }

  lemma UsedUpAtStart(entries: map<string, Entry>, t: Track, key: string, a: int, last: int)
    requires Agrees(entries, key, t, last) && Bounded(t, a, last) && last < a
    requires Spent(entries, key, a) == 0 || Spent(entries, key, a) >= MAX_FAILURES
    ensures UsedUp(t, a)
  {
  }

  lemma UsedUpStep(es: seq<Event>, key: string, a: int)
    requires es != [] && Monotone(es) && Guarded(es, key) && a <= es[|es| - 1].now
    requires UsedUp(TrackOf(es[..|es| - 1], key, a), a)
    ensures UsedUp(TrackOf(es, key, a), a)
  {
    var n := |es| - 1;
    if n > 0 && es[n].key == key && es[n].op == Fail {
      TrackHolds(es[..n], key, a);
      assert es[n - 1].now <= es[n].now;
      UsedUpCounts(Run(es[..n]), TrackOf(es[..n], key, a), key, a, es[n - 1].now, es[n].now);
    }
  }

  /** An allowed failure never lands in a used-up window that began earlier. */
  lemma UsedUpCounts(entries: map<string, Entry>, t: Track, key: string, a: int, last: int, now: int)
    requires Agrees(entries, key, t, last) && UsedUp(t, a) && last <= now && a <= now
    requires key in entries ==> entries[key].failures < MAX_FAILURES
    ensures t.start.Some? && t.start.value < a ==> now - t.start.value > WINDOW
  {
  }

  /** The run that exceeds the limit from a live entry with budget left: the rest
      of its window at once, and a whole new one as soon as it has passed. */
  lemma TwoBursts(before: seq<Event>, key: string, a: int) returns (after: seq<Event>)
    requires Monotone(before) && Guarded(before, key) && AllBefore(before, a)
    requires 0 < Spent(Run(before), key, a) < MAX_FAILURES
    ensures MayFollow(before, after, key, a) && FailuresIn(before + after, key, a) > MAX_FAILURES
  {
    var spent, first := Spent(Run(before), key, a), Run(before)[key].first;
    var renewed := first + WINDOW + 1;
    EntryBegan(before, key, a);
    var b1, b2 := Burst(key, a, MAX_FAILURES - spent), Burst(key, renewed, MAX_FAILURES);
    BurstSpends(before, key, a, MAX_FAILURES - spent, a);
    BurstSpends(before + b1, key, renewed, MAX_FAILURES, a);
    NoneYet(before, key, a);
    after := b1 + b2;
    ConcatAssociates(before, b1, b2);
    BurstTimes(key, a, MAX_FAILURES - spent);
    BurstTimes(key, renewed, MAX_FAILURES);
    BurstsFollow(before, b1, b2, a, renewed);
  }

  lemma EntryBegan(before: seq<Event>, key: string, a: int)
    requires Monotone(before) && Guarded(before, key) && AllBefore(before, a) && key in Run(before)
    ensures Run(before)[key].first < a
  {
    TrackHolds(before, key, a);
  }

  lemma {:induction false} NoneYet(before: seq<Event>, key: string, a: int)
    requires AllBefore(before, a)
    ensures FailuresIn(before, key, a) == 0
  {
    if before != [] {
      NoneYet(before[..|before| - 1], key, a);
    }
  }

  lemma BurstsFollow(before: seq<Event>, b1: seq<Event>, b2: seq<Event>, t1: int, t2: int)
    requires Monotone(before) && AllBefore(before, t1) && t1 <= t2
    requires (forall i | 0 <= i < |b1| :: b1[i].now == t1) && (forall i | 0 <= i < |b2| :: b2[i].now == t2)
    ensures Monotone(before + (b1 + b2)) && AllFrom(b1 + b2, t1)
  {
  }
}
