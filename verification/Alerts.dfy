/** Alert evaluation: the hysteresis state machine, the sparse map that runs one
    instance per rule, agent and subject, and the alerts table behind it. */
module Alerts {
  import opened Sequences

  // ---------------------------------------------------------------------
  // Rules and samples
  // ---------------------------------------------------------------------

  datatype Rule = Rule(id: string, metric: string, operator: string, threshold: real,
                       forCount: nat, clearThreshold: Option<real>, clearCount: nat)

  /** What evalRule reads from a result: its error text, whether it counts as
      healthy, the level of the state metric and the metric's value, if any. */
  datatype Result = Result(error: string, ok: bool, stateLevel: real, metric: Option<real>)

  predicate Compare(v: real, operator: string, threshold: real) {
    match operator
    case ">" => v > threshold
    case ">=" => v >= threshold
    case "<" => v < threshold
    case "<=" => v <= threshold
    case "==" => v == threshold
    case _ => false
  }

  /** None when the metric does not apply to the result. */
  function EvalRule(rule: Rule, result: Result): Option<(bool, real)> {
    if rule.metric == "unhealthy" then Some((!result.ok, 0.0))
    else if rule.metric == "state" then Some((Compare(result.stateLevel, rule.operator, rule.threshold), result.stateLevel))
    else if result.error != "" then None
    else
      match result.metric
      case None => None
      case Some(v) => Some((Compare(v, rule.operator, rule.threshold), v))
  }

  predicate ClearCondition(rule: Rule, value: real) {
    match rule.clearThreshold
    case None => true
    case Some(bound) =>
      match rule.operator
      case ">" => value < bound
      case ">=" => value < bound
      case "<" => value > bound
      case "<=" => value > bound
      case _ => true
  }

  datatype Kind = Breach | Clear | DeadBand

  function KindOf(rule: Rule, breach: bool, value: real): Kind {
    if breach then Breach else if ClearCondition(rule, value) then Clear else DeadBand
  }

  // ---------------------------------------------------------------------
  // One instance
  // ---------------------------------------------------------------------

  datatype AlertState = AlertState(breaches: nat, goods: nat)
  datatype Action = NoAction | Fire | Resolve

  const ZERO := AlertState(0, 0)

  function DecideAlert(st: AlertState, rule: Rule, breach: bool, value: real): (AlertState, Action) {
    if breach then
      var next := AlertState(st.breaches + 1, 0);
      (next, if next.breaches >= rule.forCount then Fire else NoAction)
    else if !ClearCondition(rule, value) then (ZERO, NoAction)
    else if st.goods + 1 >= rule.clearCount then (ZERO, Resolve)
    else (AlertState(0, st.goods + 1), NoAction)
  }

  /** How many samples at the end of the stream are of one kind. */
  function Trailing(ks: seq<Kind>, k: Kind): nat {
    if ks == [] || ks[|ks| - 1] != k then 0 else 1 + Trailing(ks[..|ks| - 1], k)
  }

  /** The state an instance is in after a stream of samples. */
  function StateAfter(ks: seq<Kind>, clearCount: nat): AlertState
    requires clearCount >= 1
  {
    AlertState(Trailing(ks, Breach), Trailing(ks, Clear) % clearCount)
  }

  function ActionAfter(ks: seq<Kind>, forCount: nat, clearCount: nat): Action
    requires clearCount >= 1
  {
    if Trailing(ks, Breach) >= 1 && Trailing(ks, Breach) >= forCount then Fire
    else if Trailing(ks, Clear) >= 1 && Trailing(ks, Clear) % clearCount == 0 then Resolve
    else NoAction
  }

  lemma TrailingSnoc(ks: seq<Kind>, last: Kind, k: Kind)
    ensures Trailing(ks + [last], k) == if last == k then 1 + Trailing(ks, k) else 0
  {
    assert (ks + [last])[..|ks|] == ks;
  }

  /** One sample: the counters are the trailing breach run and the trailing
      clear run modulo ClearCount, and the action is read off those runs. */
  lemma DecideExact(ks: seq<Kind>, rule: Rule, breach: bool, value: real)
    requires rule.clearCount >= 1
    ensures var stream := ks + [KindOf(rule, breach, value)];
            DecideAlert(StateAfter(ks, rule.clearCount), rule, breach, value) ==
            (StateAfter(stream, rule.clearCount), ActionAfter(stream, rule.forCount, rule.clearCount))
  {
    var last := KindOf(rule, breach, value);
    TrailingSnoc(ks, last, Breach);
    TrailingSnoc(ks, last, Clear);
    if last == Clear {
      ModuloStep(Trailing(ks, Clear), rule.clearCount);
    } else {
      SmallModulo(0, rule.clearCount);
    }
  }

  lemma ModuloStep(n: nat, m: nat)
    requires m >= 1
    ensures (n + 1) % m == if n % m + 1 >= m then 0 else n % m + 1
  {
    var q, r := n / m, n % m;
    assert n + 1 == q * m + (r + 1);
    if r + 1 == m {
      assert n + 1 == (q + 1) * m + 0;
      ModuloUnique(n + 1, m, q + 1, 0);
    } else {
      ModuloUnique(n + 1, m, q, r + 1);
    }
  }

  lemma ModuloUnique(n: nat, m: nat, q: nat, r: nat)
    requires m >= 1 && r < m && n == q * m + r
    ensures n % m == r
  {
    var d := q - n / m;
    assert d * m == n % m - r;
    MultipleIsFar(d, m);
  }

  lemma MultipleIsFar(d: int, m: nat)
    ensures d >= 1 ==> d * m >= m
    ensures d <= -1 ==> d * m <= -(m as int)
  {
  }

  // ---------------------------------------------------------------------
  // The firing condition over a stream
  // ---------------------------------------------------------------------

  /** The last position at which `count` consecutive samples of a kind end;
      0 when there is none. */
  function LastWindow(ks: seq<Kind>, k: Kind, count: nat): nat {
    if ks == [] then 0
    else if Trailing(ks, k) >= count then |ks|
    else LastWindow(ks[..|ks| - 1], k, count)
  }

  /** A window of `count` consecutive samples of a kind ends at position e. */
  ghost predicate WindowEnds(ks: seq<Kind>, k: Kind, count: nat, e: nat) {
    1 <= count <= e <= |ks| && forall i | e - count <= i < e :: ks[i] == k
  }

  lemma {:induction false} TrailingExact(ks: seq<Kind>, k: Kind, count: nat)
    requires count >= 1
    ensures Trailing(ks, k) >= count <==> WindowEnds(ks, k, count, |ks|)
  {
    if ks != [] && ks[|ks| - 1] == k && count > 1 {
      var init := ks[..|ks| - 1];
      TrailingExact(init, k, count - 1);
      if WindowEnds(ks, k, count, |ks|) {
        assert WindowEnds(init, k, count - 1, |init|);
      }
      if WindowEnds(init, k, count - 1, |init|) {
        forall i | |ks| - count <= i < |ks|
          ensures ks[i] == k
        {
          assert i < |init| ==> init[i] == ks[i];
        }
      }
    }
  }

  /** A fire is called for exactly where a window of breaches ends; a resolve
      only where one of clear samples does. */
  lemma ActionMeansWindow(ks: seq<Kind>, forCount: nat, clearCount: nat)
    requires forCount >= 1 && clearCount >= 1
    ensures ActionAfter(ks, forCount, clearCount) == Fire <==> WindowEnds(ks, Breach, forCount, |ks|)
    ensures ActionAfter(ks, forCount, clearCount) == Resolve ==> WindowEnds(ks, Clear, clearCount, |ks|)
  {
    TrailingExact(ks, Breach, forCount);
    TrailingExact(ks, Clear, clearCount);
    SmallModulo(Trailing(ks, Clear), clearCount);
  }

  /** LastWindow is the greatest position where such a window ends. */
  lemma {:induction false} LastWindowExact(ks: seq<Kind>, k: Kind, count: nat)
    requires count >= 1
    ensures LastWindow(ks, k, count) <= |ks|
    ensures LastWindow(ks, k, count) != 0 ==> WindowEnds(ks, k, count, LastWindow(ks, k, count))
    ensures forall e: nat | WindowEnds(ks, k, count, e) :: e <= LastWindow(ks, k, count)
  {
    if ks != [] {
      TrailingExact(ks, k, count);
      if Trailing(ks, k) < count {
        var init := ks[..|ks| - 1];
        LastWindowExact(init, k, count);
        var last := LastWindow(init, k, count);
        assert forall i | 0 <= i < |init| :: init[i] == ks[i];
        forall e: nat | WindowEnds(ks, k, count, e)
          ensures e <= last
        {
          assert e != |ks|;
          assert WindowEnds(init, k, count, e);
        }
      }
    }
  }

  /** Whether an alert fires after a stream: the actions applied in order. */
  predicate Firing(ks: seq<Kind>, forCount: nat, clearCount: nat)
    requires clearCount >= 1
  {
    if ks == [] then false
    else
      match ActionAfter(ks, forCount, clearCount)
      case Fire => true
      case Resolve => false
      case NoAction => Firing(ks[..|ks| - 1], forCount, clearCount)
  }

  /** The alert fires iff the last window of ForCount breaches ends after the
      last window of ClearCount clear samples. */
  lemma {:induction false} FiringExact(ks: seq<Kind>, forCount: nat, clearCount: nat)
    requires forCount >= 1 && clearCount >= 1
    ensures Firing(ks, forCount, clearCount) <==> LastWindow(ks, Breach, forCount) > LastWindow(ks, Clear, clearCount)
  {
    if ks != [] {
      var init := ks[..|ks| - 1];
      FiringExact(init, forCount, clearCount);
      LastWindowExact(init, Breach, forCount);
      LastWindowExact(init, Clear, clearCount);
      SmallModulo(Trailing(ks, Clear), clearCount);
      if Trailing(ks, Clear) > clearCount {
        // Past the first full window the alert is already resolved.
        assert Trailing(init, Clear) >= clearCount;
        assert LastWindow(init, Clear, clearCount) == |init|;
      }
    }
  }

  lemma SmallModulo(n: nat, m: nat)
    requires m >= 1
    ensures n < m ==> n % m == n
    ensures n == m ==> n % m == 0
  {
    if n < m {
      ModuloUnique(n, m, 0, n);
    } else if n == m {
      ModuloUnique(n, m, 1, 0);
    }
  }

  // ---------------------------------------------------------------------
  // The engine: sparse map, alerts table, notifications
  // ---------------------------------------------------------------------

  datatype Key = Key(ruleId: string, agentId: string, subject: string)

  /** The map's string key. */
  function Joined(k: Key): string {
    k.ruleId + "|" + k.agentId + "|" + k.subject
  }

  lemma {:induction false} SplitAtBar(a: string, b: string, x: string, y: string)
    requires '|' !in a && '|' !in b && a + "|" + x == b + "|" + y
    ensures a == b && x == y
  {
    var s := a + "|" + x;
    assert s[|a|] == '|' && s[|b|] == '|';
    assert forall i | 0 <= i < |a| :: s[i] == a[i];
    assert forall i | 0 <= i < |b| :: s[i] == b[i];
    assert s[..|a|] == a && s[..|b|] == b;
    assert s[|a| + 1..] == x && s[|b| + 1..] == y;
  }

  /** Ids are hex strings, so the joined key names one rule, agent and subject
      even though a subject may contain anything. */
  lemma JoinedInjective(k: Key, k': Key)
    requires '|' !in k.ruleId && '|' !in k'.ruleId && '|' !in k.agentId && '|' !in k'.agentId
    requires Joined(k) == Joined(k')
    ensures k == k'
  {
    var x, y := k.agentId + "|" + k.subject, k'.agentId + "|" + k'.subject;
    assert Joined(k) == k.ruleId + "|" + x && Joined(k') == k'.ruleId + "|" + y;
    SplitAtBar(k.ruleId, k'.ruleId, x, y);
    SplitAtBar(k.agentId, k'.agentId, k.subject, k'.subject);
  }

  datatype AlertRow = AlertRow(id: nat, key: Key, firing: bool, value: real)
  datatype Notice = Notice(key: Key, firing: bool, value: real)

  /** Which store calls of one step succeed; a failed call writes nothing. */
  datatype StoreLuck = StoreLuck(lookupOk: bool, writeOk: bool)

  predicate Lucky(luck: StoreLuck) {
    luck.lookupOk && luck.writeOk
  }

  datatype Event = Event(key: Key, rule: Rule, breach: bool, value: real, luck: StoreLuck)

  datatype Engine = Engine(states: map<string, AlertState>, rows: seq<AlertRow>, nextId: nat, sent: seq<Notice>)

  const IDLE := Engine(map[], [], 0, [])

  function StateOf(states: map<string, AlertState>, key: string): AlertState {
    if key in states then states[key] else ZERO
  }

  /** Storing the zero state means deleting the entry. */
  function WithState(states: map<string, AlertState>, key: string, st: AlertState): map<string, AlertState> {
    if st == ZERO then states - {key} else states[key := st]
  }

  /** SELECT ... state = 'firing' ORDER BY id DESC LIMIT 1; rows are in id order. */
  function ActiveAlert(rows: seq<AlertRow>, key: Key): Option<AlertRow> {
    if rows == [] then None
    else
      var last := rows[|rows| - 1];
      if last.key == key && last.firing then Some(last) else ActiveAlert(rows[..|rows| - 1], key)
  }

  /** UPDATE alerts SET state = 'resolved' WHERE id = ?. */
  function ResolveRow(rows: seq<AlertRow>, id: nat): seq<AlertRow> {
    seq(|rows|, i requires 0 <= i < |rows| => if rows[i].id == id then rows[i].(firing := false) else rows[i])
  }

  function Fired(e: Engine, ev: Event): Engine {
    if !ev.luck.lookupOk || ActiveAlert(e.rows, ev.key).Some? || !ev.luck.writeOk then e
    else e.(rows := e.rows + [AlertRow(e.nextId, ev.key, true, ev.value)],
            nextId := e.nextId + 1,
            sent := e.sent + [Notice(ev.key, true, ev.value)])
  }

  function Resolved(e: Engine, ev: Event): Engine {
    match ActiveAlert(e.rows, ev.key)
    case None => e
    case Some(active) =>
      if !ev.luck.lookupOk || !ev.luck.writeOk then e
      else e.(rows := ResolveRow(e.rows, active.id), sent := e.sent + [Notice(ev.key, false, active.value)])
  }

  /** evaluateAlerts for one applicable rule. */
  function Step(e: Engine, ev: Event): Engine {
    var key := Joined(ev.key);
    var (next, action) := DecideAlert(StateOf(e.states, key), ev.rule, ev.breach, ev.value);
    var e' := e.(states := WithState(e.states, key, next));
    match action
    case Fire => Fired(e', ev)
    case Resolve => Resolved(e', ev)
    case NoAction => e'
  }

  function Run(e: Engine, evs: seq<Event>): Engine {
    if evs == [] then e else Step(Run(e, evs[..|evs| - 1]), evs[|evs| - 1])
  }

  lemma RunSnoc(e: Engine, evs: seq<Event>, ev: Event)
    ensures Run(e, evs + [ev]) == Step(Run(e, evs), ev)
  {
    assert (evs + [ev])[..|evs|] == evs;
  }

  /** The events one result causes, one per applicable rule in rule order. */
  function EventsFor(rules: seq<Rule>, agentId: string, subject: string, result: Result, luck: seq<StoreLuck>): seq<Event>
    requires |luck| == |rules|
  {
    if rules == [] then []
    else
      var n := |rules| - 1;
      var before := EventsFor(rules[..n], agentId, subject, result, luck[..n]);
      match EvalRule(rules[n], result)
      case None => before
      case Some(r) => before + [Event(Key(rules[n].id, agentId, subject), rules[n], r.0, r.1, luck[n])]
  }

  class Server {
    var alertStates: map<string, AlertState>
    var alerts: seq<AlertRow>
    var nextAlertId: nat
    var sent: seq<Notice>

    function Contents(): Engine
      reads this
    {
      Engine(alertStates, alerts, nextAlertId, sent)
    }

    constructor ()
      ensures Contents() == IDLE
    {
      alertStates, alerts, nextAlertId, sent := map[], [], 0, [];
    }

    method FireAlert(ev: Event)
      modifies this`alerts, this`nextAlertId, this`sent
      ensures Contents() == Fired(old(Contents()), ev)
    {
      if !ev.luck.lookupOk || ActiveAlert(alerts, ev.key).Some? {
        return;
      }
      if !ev.luck.writeOk {
        return;
      }
      alerts, nextAlertId := alerts + [AlertRow(nextAlertId, ev.key, true, ev.value)], nextAlertId + 1;
      sent := sent + [Notice(ev.key, true, ev.value)];
    }

    method ResolveAlert(ev: Event)
      modifies this`alerts, this`sent
      ensures Contents() == Resolved(old(Contents()), ev)
    {
      var active := ActiveAlert(alerts, ev.key);
      if !ev.luck.lookupOk || active.None? {
        return;
      }
      if !ev.luck.writeOk {
        return;
      }
      alerts := ResolveRow(alerts, active.value.id);
      sent := sent + [Notice(ev.key, false, active.value.value)];
    }

    /** The loop body once the rule is known to apply. */
    method TakeSample(ev: Event)
      modifies this
      ensures Contents() == Step(old(Contents()), ev)
    {
      var key := Joined(ev.key);
      var (next, action) := DecideAlert(StateOf(alertStates, key), ev.rule, ev.breach, ev.value);
      if next == ZERO {
        alertStates := alertStates - {key};
      } else {
        alertStates := alertStates[key := next];
      }
      match action
      case Fire => FireAlert(ev);
      case Resolve => ResolveAlert(ev);
      case NoAction =>
    }

    method EvaluateAlerts(rules: seq<Rule>, agentId: string, subject: string, result: Result, luck: seq<StoreLuck>)
      requires |luck| == |rules|
      modifies this
      ensures Contents() == Run(old(Contents()), EventsFor(rules, agentId, subject, result, luck))
    {
      for k := 0 to |rules|
        invariant Contents() == Run(old(Contents()), EventsFor(rules[..k], agentId, subject, result, luck[..k]))
      {
        assert rules[..k + 1][..k] == rules[..k] && luck[..k + 1][..k] == luck[..k];
        var evaluated := EvalRule(rules[k], result);
        if evaluated.None? {
          continue;
        }
        var (breach, value) := evaluated.value;
        var ev := Event(Key(rules[k].id, agentId, subject), rules[k], breach, value, luck[k]);
        RunSnoc(old(Contents()), EventsFor(rules[..k], agentId, subject, result, luck[..k]), ev);
        TakeSample(ev);
      }
      assert rules[..|rules|] == rules && luck[..|luck|] == luck;
    }
  }

  // ---------------------------------------------------------------------
  // Every key sees only its own samples
  // ---------------------------------------------------------------------

  /** The sample kinds of one key, in arrival order. */
  function Projection(evs: seq<Event>, key: Key): seq<Kind> {
    if evs == [] then []
    else
      var ev := evs[|evs| - 1];
      Projection(evs[..|evs| - 1], key) + if ev.key == key then [KindOf(ev.rule, ev.breach, ev.value)] else []
  }

  /** Ids without a bar, counts of at least one as the API enforces, and one
      unchanged rule per rule id. */
  ghost predicate Proper(evs: seq<Event>) {
    && (forall ev | ev in evs :: '|' !in ev.key.ruleId && '|' !in ev.key.agentId && ev.key.ruleId == ev.rule.id)
    && (forall ev | ev in evs :: ev.rule.forCount >= 1 && ev.rule.clearCount >= 1)
    && (forall ev, ev' | ev in evs && ev' in evs && ev.rule.id == ev'.rule.id :: ev.rule == ev'.rule)
  }

  lemma ProperPrefix(evs: seq<Event>, n: nat)
    requires Proper(evs) && n <= |evs|
    ensures Proper(evs[..n])
  {
    assert forall ev | ev in evs[..n] :: ev in evs;
  }

  /** Sparse map, interleaving and all: for every key of the run, the entry is
      the state its own projection leads to, and no zero entry is kept. */
  lemma {:induction false} StatesExact(evs: seq<Event>, key: Key, rule: Rule)
    requires Proper(evs)
    requires '|' !in key.ruleId && '|' !in key.agentId && key.ruleId == rule.id && rule.clearCount >= 1
    requires forall ev | ev in evs && ev.rule.id == rule.id :: ev.rule == rule
    ensures StateOf(Run(IDLE, evs).states, Joined(key)) == StateAfter(Projection(evs, key), rule.clearCount)
    ensures Sparse(Run(IDLE, evs).states)
  {
    if evs == [] {
      SmallModulo(0, rule.clearCount);
    } else {
      var n := |evs| - 1;
      var ev := evs[n];
      assert ev in evs;
      assert forall e | e in evs[..n] :: e in evs;
      ProperPrefix(evs, n);
      StatesExact(evs[..n], key, rule);
      StepStates(Run(IDLE, evs[..n]), ev, Joined(key));
      if ev.key == key {
        DecideExact(Projection(evs[..n], key), rule, ev.breach, ev.value);
      } else {
        if Joined(ev.key) == Joined(key) {
          JoinedInjective(ev.key, key);
        }
        assert Projection(evs, key) == Projection(evs[..n], key);
      }
    }
  }

  ghost predicate Sparse(states: map<string, AlertState>) {
    forall k | k in states :: states[k] != ZERO
  }

  /** A step moves only the entry of its own key. */
  lemma StepStates(e: Engine, ev: Event, key: string)
    ensures StateOf(Step(e, ev).states, key) ==
            if key == Joined(ev.key) then DecideAlert(StateOf(e.states, key), ev.rule, ev.breach, ev.value).0
            else StateOf(e.states, key)
    ensures Sparse(e.states) ==> Sparse(Step(e, ev).states)
  {
  }

  // ---------------------------------------------------------------------
  // The alerts table
  // ---------------------------------------------------------------------

  ghost predicate IsFiringRow(rows: seq<AlertRow>, i: nat, key: Key) {
    i < |rows| && rows[i].key == key && rows[i].firing
  }

  /** Ids ascend below the counter, and a key has at most one firing row. */
  ghost predicate TableOk(e: Engine) {
    && (forall i, j | 0 <= i < j < |e.rows| :: e.rows[i].id < e.rows[j].id)
    && (forall i | 0 <= i < |e.rows| :: e.rows[i].id < e.nextId)
    && (forall i: nat, j: nat, key | IsFiringRow(e.rows, i, key) && IsFiringRow(e.rows, j, key) :: i == j)
  }

  lemma {:induction false} ActiveAlertExact(rows: seq<AlertRow>, key: Key)
    ensures match ActiveAlert(rows, key)
            case None => forall i: nat :: !IsFiringRow(rows, i, key)
            case Some(row) => exists i: nat | IsFiringRow(rows, i, key) :: rows[i] == row
  {
    if rows != [] {
      var n := |rows| - 1;
      ActiveAlertExact(rows[..n], key);
      assert forall i: nat | i < n :: rows[..n][i] == rows[i];
      if IsFiringRow(rows, n, key) {
        assert rows[n] == ActiveAlert(rows, key).value;
      } else {
        match ActiveAlert(rows[..n], key)
        case None =>
          forall i: nat
            ensures !IsFiringRow(rows, i, key)
          {
            assert !IsFiringRow(rows[..n], i, key);
          }
        case Some(row) =>
          var i: nat :| IsFiringRow(rows[..n], i, key) && rows[..n][i] == row;
          assert IsFiringRow(rows, i, key) && rows[i] == row;
      }
    }
  }

  predicate HasFiring(e: Engine, key: Key) {
    ActiveAlert(e.rows, key).Some?
  }

  lemma FiredActive(e: Engine, ev: Event, key: Key)
    ensures ActiveAlert(Fired(e, ev).rows, key) ==
            if key == ev.key && !HasFiring(e, key) && ev.luck.lookupOk && ev.luck.writeOk
            then Some(AlertRow(e.nextId, key, true, ev.value)) else ActiveAlert(e.rows, key)
  {
    var row := AlertRow(e.nextId, ev.key, true, ev.value);
    assert (e.rows + [row])[..|e.rows|] == e.rows;
  }

  lemma FiredTable(e: Engine, ev: Event)
    requires TableOk(e)
    ensures TableOk(Fired(e, ev))
  {
    var e' := Fired(e, ev);
    if e' != e {
      ActiveAlertExact(e.rows, ev.key);
      forall i: nat, k | IsFiringRow(e'.rows, i, k)
        ensures (i == |e.rows| && k == ev.key) || IsFiringRow(e.rows, i, k)
      {
      }
    }
  }

  lemma {:induction false} ResolveOthers(rows: seq<AlertRow>, id: nat, key: Key)
    requires forall i | 0 <= i < |rows| && rows[i].id == id :: rows[i].key != key
    ensures ActiveAlert(ResolveRow(rows, id), key) == ActiveAlert(rows, key)
  {
    if rows != [] {
      var n := |rows| - 1;
      ResolveOthers(rows[..n], id, key);
      assert ResolveRow(rows, id)[..n] == ResolveRow(rows[..n], id);
    }
  }

  /** Only the row with the resolved id stops firing. */
  lemma ResolvedRows(rows: seq<AlertRow>, at: nat)
    requires at < |rows| && forall i, j | 0 <= i < j < |rows| :: rows[i].id < rows[j].id
    ensures forall i: nat, k :: IsFiringRow(ResolveRow(rows, rows[at].id), i, k) <==> IsFiringRow(rows, i, k) && i != at
  {
    forall i: nat, k
      ensures IsFiringRow(ResolveRow(rows, rows[at].id), i, k) <==> IsFiringRow(rows, i, k) && i != at
    {
      assert i < |rows| ==> (rows[i].id == rows[at].id <==> i == at);
    }
  }

  /** The row a successful resolve is about. */
  lemma ActiveRow(e: Engine, key: Key) returns (at: nat)
    requires TableOk(e) && HasFiring(e, key)
    ensures IsFiringRow(e.rows, at, key) && e.rows[at] == ActiveAlert(e.rows, key).value
  {
    ActiveAlertExact(e.rows, key);
    at :| IsFiringRow(e.rows, at, key) && e.rows[at] == ActiveAlert(e.rows, key).value;
  }

  lemma ResolvedTable(e: Engine, ev: Event)
    requires TableOk(e)
    ensures TableOk(Resolved(e, ev))
  {
    if HasFiring(e, ev.key) && Lucky(ev.luck) {
      var at := ActiveRow(e, ev.key);
      ResolvedRows(e.rows, at);
    }
  }

  lemma ResolvedOwn(e: Engine, key: Key)
    requires TableOk(e) && HasFiring(e, key)
    ensures ActiveAlert(ResolveRow(e.rows, ActiveAlert(e.rows, key).value.id), key) == None
  {
    var at := ActiveRow(e, key);
    ResolvedRows(e.rows, at);
    ActiveAlertExact(ResolveRow(e.rows, e.rows[at].id), key);
  }

  lemma ResolvedOther(e: Engine, key: Key, other: Key)
    requires TableOk(e) && HasFiring(e, key) && other != key
    ensures ActiveAlert(ResolveRow(e.rows, ActiveAlert(e.rows, key).value.id), other) == ActiveAlert(e.rows, other)
  {
    var at := ActiveRow(e, key);
    assert forall i | 0 <= i < |e.rows| && e.rows[i].id == e.rows[at].id :: i == at;
    ResolveOthers(e.rows, e.rows[at].id, other);
  }

  lemma ResolvedExact(e: Engine, ev: Event, key: Key)
    requires TableOk(e)
    ensures TableOk(Resolved(e, ev))
    ensures ActiveAlert(Resolved(e, ev).rows, key) ==
            if key == ev.key && Lucky(ev.luck) then None else ActiveAlert(e.rows, key)
  {
    ResolvedTable(e, ev);
    if HasFiring(e, ev.key) {
      if key == ev.key {
        ResolvedOwn(e, key);
      } else {
        ResolvedOther(e, ev.key, key);
      }
    }
  }

  // ---------------------------------------------------------------------
  // Whole runs
  // ---------------------------------------------------------------------

  lemma {:induction false} RunKeepsTable(e: Engine, evs: seq<Event>)
    requires TableOk(e)
    ensures TableOk(Run(e, evs))
  {
    if evs != [] {
      RunKeepsTable(e, evs[..|evs| - 1]);
      StepKeepsTable(Run(e, evs[..|evs| - 1]), evs[|evs| - 1]);
    }
  }

  lemma StepKeepsTable(e: Engine, ev: Event)
    requires TableOk(e)
    ensures TableOk(Step(e, ev))
  {
    var (next, _) := DecideAlert(StateOf(e.states, Joined(ev.key)), ev.rule, ev.breach, ev.value);
    var e' := e.(states := WithState(e.states, Joined(ev.key), next));
    assert TableOk(e');
    FiredTable(e', ev);
    ResolvedExact(e', ev, ev.key);
  }

  lemma StepAlert(e: Engine, ev: Event, key: Key)
    requires TableOk(e)
    ensures var action := DecideAlert(StateOf(e.states, Joined(ev.key)), ev.rule, ev.breach, ev.value).1;
            HasFiring(Step(e, ev), key) ==
            if ev.key != key || action == NoAction || !Lucky(ev.luck) then HasFiring(e, key) else action == Fire
  {
    var (next, action) := DecideAlert(StateOf(e.states, Joined(ev.key)), ev.rule, ev.breach, ev.value);
    var e' := e.(states := WithState(e.states, Joined(ev.key), next));
    match action
    case Fire =>
      FiredActive(e', ev, key);
    case Resolve =>
      assert TableOk(e');
      ResolvedExact(e', ev, key);
    case NoAction =>
  }

  /** A sample of one key, and whether the store would have carried its action out. */
  datatype Sample = Sample(kind: Kind, ok: bool)

  function Samples(evs: seq<Event>, key: Key): seq<Sample> {
    if evs == [] then []
    else
      var ev := evs[|evs| - 1];
      Samples(evs[..|evs| - 1], key) +
      if ev.key == key then [Sample(KindOf(ev.rule, ev.breach, ev.value), Lucky(ev.luck))] else []
  }

  function Kinds(ss: seq<Sample>): (r: seq<Kind>)
    ensures |r| == |ss|
  {
    seq(|ss|, i requires 0 <= i < |ss| => ss[i].kind)
  }

  /** The sample at position e (counted from 1) called for this action and the
      store carried it out. */
  predicate Done(ss: seq<Sample>, e: nat, action: Action, forCount: nat, clearCount: nat)
    requires clearCount >= 1
  {
    1 <= e <= |ss| && ss[e - 1].ok && ActionAfter(Kinds(ss[..e]), forCount, clearCount) == action
  }

  ghost predicate NoneResolvedAfter(ss: seq<Sample>, e: nat, forCount: nat, clearCount: nat)
    requires clearCount >= 1
  {
    forall later | e < later <= |ss| :: !Done(ss, later, Resolve, forCount, clearCount)
  }

  /** Some fire was carried out and no resolve after it. */
  ghost predicate FiredLast(ss: seq<Sample>, forCount: nat, clearCount: nat)
    requires clearCount >= 1
  {
    exists e: nat | Done(ss, e, Fire, forCount, clearCount) :: NoneResolvedAfter(ss, e, forCount, clearCount)
  }

  /** The alert after a stream of samples: the actions carried out, in order. */
  predicate FiringWith(ss: seq<Sample>, forCount: nat, clearCount: nat)
    requires clearCount >= 1
  {
    if ss == [] then false
    else if Done(ss, |ss|, Fire, forCount, clearCount) then true
    else if Done(ss, |ss|, Resolve, forCount, clearCount) then false
    else FiringWith(ss[..|ss| - 1], forCount, clearCount)
  }

  lemma DonePrefix(ss: seq<Sample>, n: nat, e: nat, action: Action, forCount: nat, clearCount: nat)
    requires clearCount >= 1 && e <= n <= |ss|
    ensures Done(ss[..n], e, action, forCount, clearCount) <==> Done(ss, e, action, forCount, clearCount)
  {
    assert ss[..n][..e] == ss[..e];
  }

  lemma NoneResolvedPrefix(ss: seq<Sample>, e: nat, forCount: nat, clearCount: nat)
    requires clearCount >= 1 && e < |ss| && !Done(ss, |ss|, Resolve, forCount, clearCount)
    ensures NoneResolvedAfter(ss[..|ss| - 1], e, forCount, clearCount) <==> NoneResolvedAfter(ss, e, forCount, clearCount)
  {
    var init := ss[..|ss| - 1];
    if NoneResolvedAfter(ss, e, forCount, clearCount) {
      forall later | e < later <= |init|
        ensures !Done(init, later, Resolve, forCount, clearCount)
      {
        DonePrefix(ss, |init|, later, Resolve, forCount, clearCount);
      }
    }
    if NoneResolvedAfter(init, e, forCount, clearCount) {
      forall later | e < later <= |ss|
        ensures !Done(ss, later, Resolve, forCount, clearCount)
      {
        if later < |ss| {
          DonePrefix(ss, |init|, later, Resolve, forCount, clearCount);
        }
      }
    }
  }

  lemma {:induction false} FiredLastExact(ss: seq<Sample>, forCount: nat, clearCount: nat)
    requires clearCount >= 1
    ensures FiringWith(ss, forCount, clearCount) <==> FiredLast(ss, forCount, clearCount)
  {
    if ss != [] {
      FiredLastExact(ss[..|ss| - 1], forCount, clearCount);
      if Done(ss, |ss|, Fire, forCount, clearCount) {
        assert NoneResolvedAfter(ss, |ss|, forCount, clearCount);
      } else if Done(ss, |ss|, Resolve, forCount, clearCount) {
        ResolvedLast(ss, forCount, clearCount);
      } else {
        FiredLastGrows(ss, forCount, clearCount);
        FiredLastShrinks(ss, forCount, clearCount);
      }
    }
  }

  lemma ResolvedLast(ss: seq<Sample>, forCount: nat, clearCount: nat)
    requires clearCount >= 1 && Done(ss, |ss|, Resolve, forCount, clearCount)
    ensures !FiredLast(ss, forCount, clearCount)
  {
    forall e: nat | Done(ss, e, Fire, forCount, clearCount)
      ensures !NoneResolvedAfter(ss, e, forCount, clearCount)
    {
      assert e != |ss|;
    }
  }

  lemma FiredLastGrows(ss: seq<Sample>, forCount: nat, clearCount: nat)
    requires clearCount >= 1 && ss != [] && !Done(ss, |ss|, Resolve, forCount, clearCount)
    ensures FiredLast(ss[..|ss| - 1], forCount, clearCount) ==> FiredLast(ss, forCount, clearCount)
  {
    var init := ss[..|ss| - 1];
    if e: nat :| Done(init, e, Fire, forCount, clearCount) && NoneResolvedAfter(init, e, forCount, clearCount) {
      DonePrefix(ss, |init|, e, Fire, forCount, clearCount);
      NoneResolvedPrefix(ss, e, forCount, clearCount);
    }
  }

  lemma FiredLastShrinks(ss: seq<Sample>, forCount: nat, clearCount: nat)
    requires clearCount >= 1 && ss != [] && !Done(ss, |ss|, Resolve, forCount, clearCount)
    requires !Done(ss, |ss|, Fire, forCount, clearCount)
    ensures FiredLast(ss, forCount, clearCount) ==> FiredLast(ss[..|ss| - 1], forCount, clearCount)
  {
    if e: nat :| Done(ss, e, Fire, forCount, clearCount) && NoneResolvedAfter(ss, e, forCount, clearCount) {
      DonePrefix(ss, |ss| - 1, e, Fire, forCount, clearCount);
      NoneResolvedPrefix(ss, e, forCount, clearCount);
    }
  }

  lemma KindsSnoc(ss: seq<Sample>, s: Sample)
    ensures Kinds(ss + [s]) == Kinds(ss) + [s.kind]
  {
  }

  lemma {:induction false} SampleKinds(evs: seq<Event>, key: Key)
    ensures Kinds(Samples(evs, key)) == Projection(evs, key)
  {
    if evs != [] {
      var init, ev := evs[..|evs| - 1], evs[|evs| - 1];
      SampleKinds(init, key);
      if ev.key == key {
        KindsSnoc(Samples(init, key), Sample(KindOf(ev.rule, ev.breach, ev.value), Lucky(ev.luck)));
      } else {
        assert Samples(init, key) + [] == Samples(init, key);
      }
    }
  }

  /** The key's own rule: its id, proper counts and the same in every event. */
  ghost predicate RuleOf(evs: seq<Event>, key: Key, rule: Rule) {
    && '|' !in key.ruleId && '|' !in key.agentId && key.ruleId == rule.id
    && rule.forCount >= 1 && rule.clearCount >= 1
    && forall ev | ev in evs && ev.rule.id == rule.id :: ev.rule == rule
  }

  /** The hysteresis theorem with a store that may fail: for every key and every
      interleaving of samples over many keys, the alert is firing iff, among that
      key's own samples, a fire was carried out and no resolve after it. */
  lemma {:induction false} FiringUnderFailures(evs: seq<Event>, key: Key, rule: Rule)
    requires Proper(evs) && RuleOf(evs, key, rule)
    ensures HasFiring(Run(IDLE, evs), key) <==> FiredLast(Samples(evs, key), rule.forCount, rule.clearCount)
  {
    TableFollowsActions(evs, key, rule);
    FiredLastExact(Samples(evs, key), rule.forCount, rule.clearCount);
  }

  lemma {:induction false} TableFollowsActions(evs: seq<Event>, key: Key, rule: Rule)
    requires Proper(evs) && RuleOf(evs, key, rule)
    ensures HasFiring(Run(IDLE, evs), key) == FiringWith(Samples(evs, key), rule.forCount, rule.clearCount)
  {
    if evs != [] {
      var init, ev := evs[..|evs| - 1], evs[|evs| - 1];
      ProperInit(evs, key, rule);
      TableFollowsActions(init, key, rule);
      RunKeepsTable(IDLE, init);
      StatesExact(init, key, rule);
      SampleKinds(init, key);
      ActionStep(Run(IDLE, init), ev, key, rule, Samples(init, key));
    }
  }

  lemma ProperInit(evs: seq<Event>, key: Key, rule: Rule)
    requires evs != [] && Proper(evs) && RuleOf(evs, key, rule)
    ensures Proper(evs[..|evs| - 1]) && RuleOf(evs[..|evs| - 1], key, rule)
    ensures evs[|evs| - 1].key == key ==> evs[|evs| - 1].rule == rule
  {
    ProperPrefix(evs, |evs| - 1);
    assert evs[|evs| - 1] in evs;
    assert forall ev | ev in evs[..|evs| - 1] :: ev in evs;
  }

  lemma ActionStep(e: Engine, ev: Event, key: Key, rule: Rule, ss: seq<Sample>)
    requires TableOk(e) && rule.clearCount >= 1 && (ev.key == key ==> ev.rule == rule)
    requires StateOf(e.states, Joined(key)) == StateAfter(Kinds(ss), rule.clearCount)
    requires HasFiring(e, key) == FiringWith(ss, rule.forCount, rule.clearCount)
    ensures var added := if ev.key == key then [Sample(KindOf(rule, ev.breach, ev.value), Lucky(ev.luck))] else [];
            HasFiring(Step(e, ev), key) == FiringWith(ss + added, rule.forCount, rule.clearCount)
  {
    StepAlert(e, ev, key);
    if ev.key == key {
      DecideExact(Kinds(ss), rule, ev.breach, ev.value);
      SampleTaken(ss, Sample(KindOf(rule, ev.breach, ev.value), Lucky(ev.luck)), rule.forCount, rule.clearCount);
    } else {
      assert ss + [] == ss;
    }
  }

  lemma SampleTaken(ss: seq<Sample>, s: Sample, forCount: nat, clearCount: nat)
    requires clearCount >= 1
    ensures var action := ActionAfter(Kinds(ss) + [s.kind], forCount, clearCount);
            FiringWith(ss + [s], forCount, clearCount) ==
            if action == NoAction || !s.ok then FiringWith(ss, forCount, clearCount) else action == Fire
  {
    var longer := ss + [s];
    assert longer[..|longer|] == longer && longer[..|ss|] == ss;
    KindsSnoc(ss, s);
  }

  /** With a store that never fails for the key: the alert is firing iff, in the
      key's own projection, the last window of ForCount breaches ends after the
      last window of ClearCount clear samples. */
  lemma {:induction false} FiringMatchesWindows(evs: seq<Event>, key: Key, rule: Rule)
    requires Proper(evs) && RuleOf(evs, key, rule)
    requires forall ev | ev in evs && ev.key == key :: Lucky(ev.luck)
    ensures HasFiring(Run(IDLE, evs), key) <==>
            LastWindow(Projection(evs, key), Breach, rule.forCount) > LastWindow(Projection(evs, key), Clear, rule.clearCount)
  {
    TableFollowsActions(evs, key, rule);
    SampleKinds(evs, key);
    AllCarriedOut(evs, key);
    CarriedOutFiring(Samples(evs, key), rule.forCount, rule.clearCount);
    FiringExact(Projection(evs, key), rule.forCount, rule.clearCount);
  }

  lemma {:induction false} AllCarriedOut(evs: seq<Event>, key: Key)
    requires forall ev | ev in evs && ev.key == key :: Lucky(ev.luck)
    ensures forall s | s in Samples(evs, key) :: s.ok
  {
    if evs != [] {
      var n := |evs| - 1;
      assert evs[n] in evs;
      assert forall ev | ev in evs[..n] :: ev in evs;
      AllCarriedOut(evs[..n], key);
    }
  }

  lemma {:induction false} CarriedOutFiring(ss: seq<Sample>, forCount: nat, clearCount: nat)
    requires clearCount >= 1 && forall s | s in ss :: s.ok
    ensures FiringWith(ss, forCount, clearCount) == Firing(Kinds(ss), forCount, clearCount)
  {
    if ss != [] {
      var init, last := ss[..|ss| - 1], ss[|ss| - 1];
      assert last in ss;
      assert forall s | s in init :: s in ss;
      assert ss == init + [last];
      CarriedOutFiring(init, forCount, clearCount);
      SampleTaken(init, last, forCount, clearCount);
      KindsSnoc(init, last);
      assert Kinds(ss)[..|init|] == Kinds(init);
    }
  }

  /** The notices of one key, in sending order. */
  function SentFor(sent: seq<Notice>, key: Key): seq<Notice> {
    if sent == [] then []
    else
      var last := sent[|sent| - 1];
      SentFor(sent[..|sent| - 1], key) + if last.key == key then [last] else []
  }

  /** "firing" and "resolved" strictly alternate, and each "resolved" repeats
      the value its alert fired with. */
  ghost predicate Alternating(ns: seq<Notice>) {
    && (forall i | 0 <= i < |ns| :: ns[i].firing <==> i % 2 == 0)
    && (forall i | 1 <= i < |ns| && i % 2 == 1 :: ns[i].value == ns[i - 1].value)
  }

  /** The notices alternate, and an alert is active, with the value last sent,
      exactly while the last one said "firing". */
  ghost predicate InStep(ns: seq<Notice>, active: Option<AlertRow>) {
    && Alternating(ns)
    && (active.Some? <==> |ns| % 2 == 1)
    && (active.Some? ==> active.value.value == ns[|ns| - 1].value)
  }

  ghost predicate Disciplined(e: Engine, key: Key) {
    InStep(SentFor(e.sent, key), ActiveAlert(e.rows, key))
  }

  lemma FireInStep(ns: seq<Notice>, row: AlertRow)
    requires InStep(ns, None)
    ensures InStep(ns + [Notice(row.key, true, row.value)], Some(row))
  {
    AlternatingSnoc(ns, Notice(row.key, true, row.value));
  }

  lemma ResolveInStep(ns: seq<Notice>, row: AlertRow, key: Key)
    requires InStep(ns, Some(row))
    ensures InStep(ns + [Notice(key, false, row.value)], None)
  {
    AlternatingSnoc(ns, Notice(key, false, row.value));
  }

  lemma SentForSnoc(sent: seq<Notice>, n: Notice, key: Key)
    ensures SentFor(sent + [n], key) == if n.key == key then SentFor(sent, key) + [n] else SentFor(sent, key)
  {
    assert (sent + [n])[..|sent|] == sent;
  }

  lemma AlternatingSnoc(ns: seq<Notice>, n: Notice)
    requires Alternating(ns) && (n.firing <==> |ns| % 2 == 0)
    requires |ns| % 2 == 1 ==> n.value == ns[|ns| - 1].value
    ensures Alternating(ns + [n])
  {
  }

  /** What firing does to one key's notices. */
  lemma FiredSent(e: Engine, ev: Event, key: Key)
    ensures SentFor(Fired(e, ev).sent, key) ==
            if key == ev.key && !HasFiring(e, key) && ev.luck.lookupOk && ev.luck.writeOk
            then SentFor(e.sent, key) + [Notice(key, true, ev.value)] else SentFor(e.sent, key)
  {
    SentForSnoc(e.sent, Notice(ev.key, true, ev.value), key);
  }

  lemma FiredDisciplined(e: Engine, ev: Event, key: Key)
    requires Disciplined(e, key)
    ensures Disciplined(Fired(e, ev), key)
  {
    FiredActive(e, ev, key);
    FiredSent(e, ev, key);
    if ev.key == key && !HasFiring(e, key) {
      FireInStep(SentFor(e.sent, key), AlertRow(e.nextId, key, true, ev.value));
    }
  }

  /** What resolving does to one key's notices. */
  lemma ResolvedSent(e: Engine, ev: Event, key: Key)
    ensures SentFor(Resolved(e, ev).sent, key) ==
            if key == ev.key && HasFiring(e, key) && ev.luck.lookupOk && ev.luck.writeOk
            then SentFor(e.sent, key) + [Notice(key, false, ActiveAlert(e.rows, key).value.value)]
            else SentFor(e.sent, key)
  {
    if HasFiring(e, ev.key) {
      SentForSnoc(e.sent, Notice(ev.key, false, ActiveAlert(e.rows, ev.key).value.value), key);
    }
  }

  lemma ResolvedDisciplined(e: Engine, ev: Event, key: Key)
    requires TableOk(e) && Disciplined(e, key)
    ensures Disciplined(Resolved(e, ev), key)
  {
    ResolvedExact(e, ev, key);
    ResolvedSent(e, ev, key);
    if ev.key == key && HasFiring(e, key) {
      ResolveInStep(SentFor(e.sent, key), ActiveAlert(e.rows, key).value, key);
    }
  }

  lemma StepDisciplined(e: Engine, ev: Event, key: Key)
    requires TableOk(e) && Disciplined(e, key)
    ensures Disciplined(Step(e, ev), key)
  {
    var (next, _) := DecideAlert(StateOf(e.states, Joined(ev.key)), ev.rule, ev.breach, ev.value);
    var e' := e.(states := WithState(e.states, Joined(ev.key), next));
    assert TableOk(e') && Disciplined(e', key);
    FiredDisciplined(e', ev, key);
    ResolvedDisciplined(e', ev, key);
  }

  /** Notification discipline: from any counters, a table without a firing row
      for the key, and store calls that may fail without writing, every run
      alternates "firing" and "resolved" per key, keeps at most one firing row
      per key, and has one exactly while the last notice said "firing". */
  lemma {:induction false} NotificationDiscipline(e: Engine, evs: seq<Event>, key: Key)
    requires TableOk(e) && !HasFiring(e, key) && e.sent == []
    ensures TableOk(Run(e, evs)) && Disciplined(Run(e, evs), key)
  {
    RunKeepsTable(e, evs);
    if evs != [] {
      var n := |evs| - 1;
      RunKeepsTable(e, evs[..n]);
      NotificationDiscipline(e, evs[..n], key);
      StepDisciplined(Run(e, evs[..n]), evs[n], key);
    }
  }
}
