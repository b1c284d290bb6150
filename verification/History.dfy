/** The insert-and-prune tables: results, logs and recorded path changes.
    A row belongs to one scope; an insert may be followed by a DELETE that
    keeps only the newest `limit` rows of one scope. */
module History {
  import opened Sequences

  datatype Row<S, P> = Row(id: nat, scope: S, body: P)

  /** How far one store call got: either statement may fail without writing. */
  datatype Outcome = InsertFailed | PruneFailed | Stored

  /** One call of AddResult, InsertLog or AddPathChange. `prune` is the scope
      its DELETE names, which is not the row's own scope for a log line whose
      source is neither "agent" nor "server". */
  datatype Insert<S, P> = Insert(scope: S, prune: S, body: P, limit: nat, outcome: Outcome)

  datatype Table<S, P> = Table(rows: seq<Row<S, P>>, nextId: nat)

  ghost predicate Ordered<S, P>(t: Table<S, P>) {
    && (forall i, j | 0 <= i < j < |t.rows| :: t.rows[i].id < t.rows[j].id)
    && (forall i | 0 <= i < |t.rows| :: t.rows[i].id < t.nextId)
  }

  /** The rows of one scope, oldest first. */
  function InScope<S(==), P>(rows: seq<Row<S, P>>, scope: S): seq<Row<S, P>> {
    if rows == [] then []
    else
      var last := rows[|rows| - 1];
      InScope(rows[..|rows| - 1], scope) + if last.scope == scope then [last] else []
  }

  function Bodies<S, P>(rows: seq<Row<S, P>>): (r: seq<P>)
    ensures |r| == |rows|
  {
    seq(|rows|, i requires 0 <= i < |rows| => rows[i].body)
  }

  /** How many rows of a scope carry an id above the given one: the rank of a
      row in SELECT id ... ORDER BY id DESC. */
  function Newer<S(==), P>(rows: seq<Row<S, P>>, scope: S, id: nat): nat {
    if rows == [] then 0
    else
      var last := rows[|rows| - 1];
      Newer(rows[..|rows| - 1], scope, id) + if last.scope == scope && last.id > id then 1 else 0
  }

  /** DELETE ... WHERE scope AND id NOT IN (SELECT id ... ORDER BY id DESC LIMIT limit),
      applied to a part of the table. */
  function Pruned<S(==), P>(all: seq<Row<S, P>>, part: seq<Row<S, P>>, scope: S, limit: nat): seq<Row<S, P>> {
    if part == [] then []
    else
      var last := part[|part| - 1];
      Pruned(all, part[..|part| - 1], scope, limit) +
      if last.scope != scope || Newer(all, scope, last.id) < limit then [last] else []
  }

  function Apply<S(==), P>(t: Table<S, P>, e: Insert<S, P>): Table<S, P> {
    match e.outcome
    case InsertFailed => t
    case PruneFailed => Table(t.rows + [Row(t.nextId, e.scope, e.body)], t.nextId + 1)
    case Stored =>
      var rows := t.rows + [Row(t.nextId, e.scope, e.body)];
      Table(Pruned(rows, rows, e.prune, e.limit), t.nextId + 1)
  }

  function Run<S(==), P>(t: Table<S, P>, es: seq<Insert<S, P>>): Table<S, P> {
    if es == [] then t else Apply(Run(t, es[..|es| - 1]), es[|es| - 1])
  }

  const RESULTS_PER_TEST: nat := 5000
  const PATH_CHANGES_PER_TEST: nat := 500

  /** The store object: rows in insertion order and the AUTOINCREMENT counter. */
  class BoundedTable<S(==), P> {
    var rows: seq<Row<S, P>>
    var nextId: nat

    function Contents(): Table<S, P>
      reads this
    {
      Table(rows, nextId)
    }

    constructor ()
      ensures Contents() == Table([], 0)
    {
      rows, nextId := [], 0;
    }

    method Add(e: Insert<S, P>)
      modifies this
      ensures Contents() == Apply(old(Contents()), e)
    {
      if e.outcome.InsertFailed? {
        return;
      }
      rows, nextId := rows + [Row(nextId, e.scope, e.body)], nextId + 1;
      if e.outcome.Stored? {
        rows := Pruned(rows, rows, e.prune, e.limit);
      }
    }
  }

  // ---------------------------------------------------------------------
  // What one DELETE does to each scope
  // ---------------------------------------------------------------------

  lemma NewerBounds<S, P>(rows: seq<Row<S, P>>, scope: S, id: nat)
    ensures Newer(rows, scope, id) <= |InScope(rows, scope)|
    ensures (forall i | 0 <= i < |rows| :: rows[i].id <= id) ==> Newer(rows, scope, id) == 0
  {
  }

  lemma {:induction false} NewerFrom<S, P>(rows: seq<Row<S, P>>, scope: S, k: nat)
    requires k < |rows|
    requires forall i, j | 0 <= i < j < |rows| :: rows[i].id < rows[j].id
    ensures Newer(rows, scope, rows[k].id) == |InScope(rows, scope)| - |InScope(rows[..k + 1], scope)|
  {
    var n := |rows| - 1;
    if k == n {
      assert rows[..k + 1] == rows;
      NewerBounds(rows, scope, rows[k].id);
    } else {
      NewerFrom(rows[..n], scope, k);
      assert rows[..n][..k + 1] == rows[..k + 1];
    }
  }

  lemma InScopeSnoc<S, P>(rows: seq<Row<S, P>>, r: Row<S, P>, scope: S)
    ensures InScope(rows + [r], scope) == if r.scope == scope then InScope(rows, scope) + [r] else InScope(rows, scope)
  {
    assert (rows + [r])[..|rows|] == rows;
  }

  /** What a DELETE leaves of `here`, the scope's rows so far, when `later` of
      them are still to come. */
  function Survivors<T>(here: seq<T>, later: nat, limit: nat): seq<T> {
    LastN(here, if later <= limit then limit - later else 0)
  }

  lemma SurvivorsSnoc<T>(here: seq<T>, x: T, later: nat, limit: nat)
    ensures Survivors(here + [x], later, limit) ==
            if later < limit then Survivors(here, later + 1, limit) + [x] else []
  {
  }

  lemma PrunedSnoc<S, P>(all: seq<Row<S, P>>, part: seq<Row<S, P>>, r: Row<S, P>, scope: S, limit: nat)
    ensures Pruned(all, part + [r], scope, limit) ==
            if r.scope != scope || Newer(all, scope, r.id) < limit then Pruned(all, part, scope, limit) + [r]
            else Pruned(all, part, scope, limit)
  {
    assert (part + [r])[..|part|] == part;
    assert Pruned(all, part, scope, limit) + [] == Pruned(all, part, scope, limit);
  }

  /** The DELETE over a prefix of the table, seen from one scope. */
  ghost predicate PrunesTo<S, P>(all: seq<Row<S, P>>, part: seq<Row<S, P>>, prune: S, limit: nat, scope: S) {
    var here := InScope(part, scope);
    && |here| <= |InScope(all, scope)|
    && InScope(Pruned(all, part, prune, limit), scope) ==
       if scope != prune then here else Survivors(here, |InScope(all, scope)| - |here|, limit)
  }

  lemma {:induction false} PrunedPart<S, P>(all: seq<Row<S, P>>, k: nat, prune: S, limit: nat, scope: S)
    requires k <= |all|
    requires forall i, j | 0 <= i < j < |all| :: all[i].id < all[j].id
    ensures PrunesTo(all, all[..k], prune, limit, scope)
  {
    if k == 0 {
      assert all[..0] == [];
    } else {
      PrunedPart(all, k - 1, prune, limit, scope);
      NewerAtSplit(all, all[..k - 1], all[k - 1], all[k..], scope);
      NewerAtSplit(all, all[..k - 1], all[k - 1], all[k..], prune);
      assert all[..k] == all[..k - 1] + [all[k - 1]];
      PrunedStep(all, all[..k - 1], all[k - 1], prune, limit, scope);
    }
  }

  lemma NewerAtSplit<S, P>(all: seq<Row<S, P>>, part: seq<Row<S, P>>, last: Row<S, P>, rest: seq<Row<S, P>>, scope: S)
    requires all == part + [last] + rest
    requires forall i, j | 0 <= i < j < |all| :: all[i].id < all[j].id
    ensures Newer(all, scope, last.id) == |InScope(all, scope)| - |InScope(part + [last], scope)|
  {
    NewerFrom(all, scope, |part|);
    assert all[..|part| + 1] == part + [last];
  }

  lemma PrunedStep<S, P>(all: seq<Row<S, P>>, part: seq<Row<S, P>>, last: Row<S, P>, prune: S, limit: nat, scope: S)
    requires PrunesTo(all, part, prune, limit, scope)
    requires forall s | s == scope || s == prune ::
               Newer(all, s, last.id) == |InScope(all, s)| - |InScope(part + [last], s)|
    ensures PrunesTo(all, part + [last], prune, limit, scope)
  {
    InScopeSnoc(part, last, scope);
    PrunedSnoc(all, part, last, prune, limit);
    InScopeSnoc(Pruned(all, part, prune, limit), last, scope);
    assert Newer(all, scope, last.id) >= 0;
    if last.scope == prune && scope == prune {
      SurvivorsSnoc(InScope(part, scope), last, Newer(all, prune, last.id), limit);
    }
  }

  lemma PruneKeepsNewest<S, P>(rows: seq<Row<S, P>>, prune: S, limit: nat, scope: S)
    requires forall i, j | 0 <= i < j < |rows| :: rows[i].id < rows[j].id
    ensures InScope(Pruned(rows, rows, prune, limit), scope) ==
            if scope == prune then LastN(InScope(rows, scope), limit) else InScope(rows, scope)
  {
    PrunedPart(rows, |rows|, prune, limit, scope);
    assert rows[..|rows|] == rows;
  }

  lemma {:induction false} PrunedOrdered<S, P>(all: seq<Row<S, P>>, part: seq<Row<S, P>>, scope: S, limit: nat, top: nat)
    requires forall i, j | 0 <= i < j < |part| :: part[i].id < part[j].id
    requires forall i | 0 <= i < |part| :: part[i].id < top
    ensures Ordered(Table(Pruned(all, part, scope, limit), top))
  {
    if part != [] {
      PrunedOrdered(all, part[..|part| - 1], scope, limit, part[|part| - 1].id);
    }
  }

  lemma ApplyOrdered<S, P>(t: Table<S, P>, e: Insert<S, P>)
    requires Ordered(t)
    ensures Ordered(Apply(t, e))
  {
    var rows := t.rows + [Row(t.nextId, e.scope, e.body)];
    PrunedOrdered(rows, rows, e.prune, e.limit, t.nextId + 1);
  }

  // ---------------------------------------------------------------------
  // Whole runs
  // ---------------------------------------------------------------------

  /** What a call adds to the scope's writes. */
  function AddedBy<S(==), P>(e: Insert<S, P>, scope: S): (r: seq<P>)
    ensures |r| <= 1
  {
    if e.scope == scope && !e.outcome.InsertFailed? then [e.body] else []
  }

  function HeldAfter<S(==), P>(e: Insert<S, P>, scope: S, grown: nat): nat {
    if e.prune == scope && e.outcome.Stored? then Min(grown, e.limit) else grown
  }

  /** Everything ever written to a scope, oldest first. */
  function Written<S(==), P>(es: seq<Insert<S, P>>, scope: S): seq<P> {
    if es == [] then []
    else
      var e := es[|es| - 1];
      Written(es[..|es| - 1], scope) + AddedBy(e, scope)
  }

  /** How many of those are still there: one more for each row written, cut
      back to the limit in force by each DELETE that names the scope. */
  function Held<S(==), P>(es: seq<Insert<S, P>>, scope: S): nat {
    if es == [] then 0
    else
      var e := es[|es| - 1];
      HeldAfter(e, scope, Held(es[..|es| - 1], scope) + |AddedBy(e, scope)|)
  }

  /** The scope holds the newest `held` of what was written to it. */
  ghost predicate HoldsNewest<S, P>(t: Table<S, P>, scope: S, w: seq<P>, held: nat) {
    Ordered(t) && Bodies(InScope(t.rows, scope)) == LastN(w, held)
  }

  /** The exact history theorem: whatever the mix of scopes, limits and failed
      statements, a scope holds precisely the newest `Held` of its writes. */
  lemma HistoryIsNewestWrites<S, P>(es: seq<Insert<S, P>>, scope: S)
    ensures Ordered(Run(Table([], 0), es))
    ensures Bodies(InScope(Run(Table([], 0), es).rows, scope)) == LastN(Written(es, scope), Held(es, scope))
  {
    RunHoldsNewest(es, scope);
  }

  lemma {:induction false} RunHoldsNewest<S, P>(es: seq<Insert<S, P>>, scope: S)
    ensures HoldsNewest(Run(Table([], 0), es), scope, Written(es, scope), Held(es, scope))
  {
    if es == [] {
      NothingHeld<S, P>(scope);
    } else {
      var before, e := es[..|es| - 1], es[|es| - 1];
      RunHoldsNewest(before, scope);
      HistoryStep(Run(Table([], 0), before), e, scope, Written(before, scope), Held(before, scope));
    }
  }

  lemma NothingHeld<S, P>(scope: S)
    ensures HoldsNewest<S, P>(Table([], 0), scope, [], 0)
  {
  }

  lemma HistoryStep<S, P>(t: Table<S, P>, e: Insert<S, P>, scope: S, w: seq<P>, held: nat)
    requires HoldsNewest(t, scope, w, held)
    ensures HoldsNewest(Apply(t, e), scope, w + AddedBy(e, scope), HeldAfter(e, scope, held + |AddedBy(e, scope)|))
  {
    ApplyOrdered(t, e);
    GrownThenCut(w, AddedBy(e, scope), held, e.limit);
    if e.outcome.InsertFailed? {
      assert Apply(t, e) == t;
      assert w + [] == w;
    } else {
      ApplyBodies(t, e, scope);
    }
  }

  lemma GrownThenCut<P>(w: seq<P>, added: seq<P>, held: nat, limit: nat)
    requires |added| <= 1
    ensures LastN(w, held) + added == LastN(w + added, held + |added|)
    ensures LastN(LastN(w, held) + added, limit) == LastN(w + added, Min(held + |added|, limit))
  {
    GrownLastN(w, added, held);
    LastNOfLastN(w + added, held + |added|, limit);
  }

  lemma GrownLastN<P>(w: seq<P>, added: seq<P>, held: nat)
    requires |added| <= 1
    ensures LastN(w, held) + added == LastN(w + added, held + |added|)
  {
    if added == [] {
      assert w + added == w && LastN(w, held) + added == LastN(w, held);
    } else {
      assert added == [added[0]];
      LastNSnoc(w, added[0], held);
    }
  }

  lemma ApplyBodies<S, P>(t: Table<S, P>, e: Insert<S, P>, scope: S)
    requires Ordered(t) && !e.outcome.InsertFailed?
    ensures var grown := Bodies(InScope(t.rows, scope)) + (if e.scope == scope then [e.body] else []);
            Bodies(InScope(Apply(t, e).rows, scope)) ==
            if e.outcome.Stored? && e.prune == scope then LastN(grown, e.limit) else grown
  {
    var r := Row(t.nextId, e.scope, e.body);
    InScopeSnoc(t.rows, r, scope);
    PruneKeepsNewest(t.rows + [r], e.prune, e.limit, scope);
    BodiesSnoc(InScope(t.rows, scope), r);
    BodiesLastN(InScope(t.rows + [r], scope), e.limit);
  }

  lemma BodiesSnoc<S, P>(rows: seq<Row<S, P>>, r: Row<S, P>)
    ensures Bodies(rows + [r]) == Bodies(rows) + [r.body]
    ensures Bodies(rows) + [] == Bodies(rows)
  {
  }

  lemma BodiesLastN<S, P>(rows: seq<Row<S, P>>, n: nat)
    ensures Bodies(LastN(rows, n)) == LastN(Bodies(rows), n)
  {
  }

  /** With one limit and no failures, each scope that prunes itself holds
      exactly its last `limit` writes, however the other scopes behave. */
  lemma {:induction false} BoundedHistory<S, P>(es: seq<Insert<S, P>>, scope: S, limit: nat)
    requires forall e | e in es && e.scope == scope :: e.prune == scope && e.outcome.Stored?
    requires forall e | e in es && e.prune == scope :: e.limit == limit
    ensures Held(es, scope) == Min(|Written(es, scope)|, limit)
    ensures Bodies(InScope(Run(Table([], 0), es).rows, scope)) == LastN(Written(es, scope), limit)
  {
    HeldIsBounded(es, scope, limit);
    HistoryIsNewestWrites(es, scope);
  }

  lemma {:induction false} HeldIsBounded<S, P>(es: seq<Insert<S, P>>, scope: S, limit: nat)
    requires forall e | e in es && e.scope == scope :: e.prune == scope && e.outcome.Stored?
    requires forall e | e in es && e.prune == scope :: e.limit == limit
    ensures Held(es, scope) == Min(|Written(es, scope)|, limit)
  {
    if es != [] {
      var n := |es| - 1;
      assert es[n] in es;
      assert forall e | e in es[..n] :: e in es;
      HeldIsBounded(es[..n], scope, limit);
    }
  }

  /** A reader of the newest `w` rows sees the same rows as if nothing had
      ever been deleted, as long as no prune of the scope goes below `w`. */
  lemma {:induction false} WindowUnaffectedByPruning<S, P>(es: seq<Insert<S, P>>, scope: S, w: nat)
    requires forall e | e in es && e.prune == scope :: w <= e.limit
    ensures LastN(Bodies(InScope(Run(Table([], 0), es).rows, scope)), w) == LastN(Written(es, scope), w)
  {
    HeldCoversWindow(es, scope, w);
    HistoryIsNewestWrites(es, scope);
    LastNOfLastN(Written(es, scope), Held(es, scope), w);
  }

  lemma {:induction false} HeldCoversWindow<S, P>(es: seq<Insert<S, P>>, scope: S, w: nat)
    requires forall e | e in es && e.prune == scope :: w <= e.limit
    ensures Min(|Written(es, scope)|, w) <= Held(es, scope) <= |Written(es, scope)|
  {
    if es != [] {
      var n := |es| - 1;
      assert es[n] in es;
      assert forall e | e in es[..n] :: e in es;
      HeldCoversWindow(es[..n], scope, w);
    }
  }
}
