/** From results to alerts: what the hysteresis theorems say about the values that
    arrive, for every metric, operator and clear threshold. */
module AlertDelivery {
  import opened Sequences
  import opened Alerts

  /** One result reaching evaluateAlerts, with the rules watching its test. */
  datatype Delivery = Delivery(agentId: string, subject: string, rules: seq<Rule>, result: Result, luck: seq<StoreLuck>)

  function AllEvents(ds: seq<Delivery>): seq<Event>
    requires forall d | d in ds :: |d.luck| == |d.rules|
  {
    if ds == [] then []
    else
      assert forall d | d in ds[..|ds| - 1] :: d in ds;
      var d := ds[|ds| - 1];
      AllEvents(ds[..|ds| - 1]) + EventsFor(d.rules, d.agentId, d.subject, d.result, d.luck)
  }

  /** evaluateAlerts called for one result after the other. */
  function Delivered(e: Engine, ds: seq<Delivery>): Engine
    requires forall d | d in ds :: |d.luck| == |d.rules|
  {
    if ds == [] then e
    else
      assert forall d | d in ds[..|ds| - 1] :: d in ds;
      var d := ds[|ds| - 1];
      Run(Delivered(e, ds[..|ds| - 1]), EventsFor(d.rules, d.agentId, d.subject, d.result, d.luck))
  }

  lemma {:induction false} RunConcat(e: Engine, a: seq<Event>, b: seq<Event>)
    ensures Run(e, a + b) == Run(Run(e, a), b)
    decreases |b|
  {
    if b == [] {
      assert a + b == a;
    } else {
      var init, last := b[..|b| - 1], b[|b| - 1];
      RunConcat(e, a, init);
      assert a + b == a + init + [last];
      RunSnoc(e, a + init, last);
    }
  }

  lemma {:induction false} DeliveredIsRun(e: Engine, ds: seq<Delivery>)
    requires forall d | d in ds :: |d.luck| == |d.rules|
    ensures Delivered(e, ds) == Run(e, AllEvents(ds))
  {
    if ds != [] {
      var init, d := ds[..|ds| - 1], ds[|ds| - 1];
      assert forall x | x in init :: x in ds;
      DeliveredIsRun(e, init);
      RunConcat(e, AllEvents(init), EventsFor(d.rules, d.agentId, d.subject, d.result, d.luck));
    }
  }

  /** Beyond a threshold, in the direction of a rule's operator. */
  ghost predicate Beyond(operator: string, v: real, threshold: real) {
    || (operator == ">" && v > threshold) || (operator == ">=" && v >= threshold)
    || (operator == "<" && v < threshold) || (operator == "<=" && v <= threshold)
    || (operator == "==" && v == threshold)
  }

  /** The rule has something to say about the result. */
  ghost predicate Applies(rule: Rule, r: Result) {
    rule.metric in {"unhealthy", "state"} || (r.error == "" && r.metric.Some?)
  }

  /** The number a rule looks at; an unhealthy rule looks at none. */
  ghost function Reading(rule: Rule, r: Result): real
    requires Applies(rule, r)
  {
    if rule.metric == "unhealthy" then 0.0 else if rule.metric == "state" then r.stateLevel else r.metric.value
  }

  ghost predicate Bad(rule: Rule, r: Result)
    requires Applies(rule, r)
  {
    if rule.metric == "unhealthy" then !r.ok else Beyond(rule.operator, Reading(rule, r), rule.threshold)
  }

  /** Not bad, and back on the good side of the clear threshold if there is one. */
  ghost predicate Recovered(rule: Rule, r: Result)
    requires Applies(rule, r)
  {
    && !Bad(rule, r)
    && (rule.clearThreshold.Some? && rule.operator in {">", ">="} ==> Reading(rule, r) < rule.clearThreshold.value)
    && (rule.clearThreshold.Some? && rule.operator in {"<", "<="} ==> Reading(rule, r) > rule.clearThreshold.value)
  }

  /** evalRule and clearCondition in those terms. */
  lemma KindIsMeant(rule: Rule, r: Result)
    ensures EvalRule(rule, r).Some? <==> Applies(rule, r)
    ensures Applies(rule, r) ==>
              var (breach, value) := EvalRule(rule, r).value;
              && value == Reading(rule, r)
              && (KindOf(rule, breach, value) == Breach <==> Bad(rule, r))
              && (KindOf(rule, breach, value) == Clear <==> Recovered(rule, r))
  {
  }

  /** The rule, if the result is for this agent and subject and its test is watched
      by it. */
  ghost predicate Reaches(d: Delivery, rule: Rule, agentId: string, subject: string) {
    d.agentId == agentId && d.subject == subject && rule in d.rules && Applies(rule, d.result)
  }

  /** The results a rule sees of one agent and subject, in order. */
  ghost function Seen(ds: seq<Delivery>, rule: Rule, agentId: string, subject: string): (rs: seq<Result>)
    ensures forall r | r in rs :: Applies(rule, r)
  {
    if ds == [] then []
    else
      var d := ds[|ds| - 1];
      Seen(ds[..|ds| - 1], rule, agentId, subject) + if Reaches(d, rule, agentId, subject) then [d.result] else []
  }

  ghost predicate BadRun(rs: seq<Result>, rule: Rule, e: nat)
    requires forall r | r in rs :: Applies(rule, r)
  {
    1 <= rule.forCount <= e <= |rs| && forall i | e - rule.forCount <= i < e :: Bad(rule, rs[i])
  }

  ghost predicate GoodRun(rs: seq<Result>, rule: Rule, e: nat)
    requires forall r | r in rs :: Applies(rule, r)
  {
    1 <= rule.clearCount <= e <= |rs| && forall i | e - rule.clearCount <= i < e :: Recovered(rule, rs[i])
  }

  /** Some ForCount bad results in a row end after every ClearCount recovered ones. */
  ghost predicate BadLast(rs: seq<Result>, rule: Rule)
    requires forall r | r in rs :: Applies(rule, r)
  {
    exists e | BadRun(rs, rule, e) :: forall later | GoodRun(rs, rule, later) :: later < e
  }

  /** Results whose rules have distinct bar-free ids, proper counts and one meaning
      per id. */
  ghost predicate ProperDeliveries(ds: seq<Delivery>) {
    && (forall d | d in ds :: |d.luck| == |d.rules| && '|' !in d.agentId)
    && (forall d, i, j | d in ds && 0 <= i < j < |d.rules| :: d.rules[i].id != d.rules[j].id)
    && (forall d, r | d in ds && r in d.rules :: '|' !in r.id && r.forCount >= 1 && r.clearCount >= 1)
    && (forall d, d', r, r' | d in ds && d' in ds && r in d.rules && r' in d'.rules && r.id == r'.id :: r == r')
  }

  lemma ProjectionConcat(a: seq<Event>, b: seq<Event>, key: Key)
    ensures Projection(a + b, key) == Projection(a, key) + Projection(b, key)
    decreases |b|
  {
    if b == [] {
      assert a + b == a;
      assert Projection(a, key) + [] == Projection(a, key);
    } else {
      var init, last := b[..|b| - 1], b[|b| - 1];
      ProjectionConcat(a, init, key);
      assert a + b == a + init + [last];
      assert (a + b)[..|a + b| - 1] == a + init;
    }
  }

  /** One result gives a key at most one sample, that of its rule. */
  lemma {:induction false} EventsProjection(rules: seq<Rule>, agentId: string, subject: string, r: Result, luck: seq<StoreLuck>,
                                            key: Key, rule: Rule)
    requires |luck| == |rules| && key.ruleId == rule.id
    requires forall i, j | 0 <= i < j < |rules| :: rules[i].id != rules[j].id
    requires forall x | x in rules && x.id == rule.id :: x == rule
    ensures var events := EventsFor(rules, agentId, subject, r, luck);
            Projection(events, key) ==
            if agentId == key.agentId && subject == key.subject && rule in rules && Applies(rule, r)
            then [KindOf(rule, EvalRule(rule, r).value.0, EvalRule(rule, r).value.1)] else []
  {
    if rules != [] {
      var n := |rules| - 1;
      var x := rules[n];
      assert x in rules;
      assert forall y | y in rules[..n] :: y in rules;
      assert forall y | y in rules[..n] :: y.id != x.id;
      assert rule in rules <==> rule in rules[..n] || rule == x;
      EventsProjection(rules[..n], agentId, subject, r, luck[..n], key, rule);
      KindIsMeant(rule, r);
      EventsSnoc(rules, agentId, subject, r, luck, key);
    }
  }

  lemma EventsSnoc(rules: seq<Rule>, agentId: string, subject: string, r: Result, luck: seq<StoreLuck>, key: Key)
    requires |luck| == |rules| && rules != []
    ensures var n := |rules| - 1;
            var x, ev := rules[n], EvalRule(rules[n], r);
            Projection(EventsFor(rules, agentId, subject, r, luck), key) ==
            Projection(EventsFor(rules[..n], agentId, subject, r, luck[..n]), key) +
            if ev.Some? && Key(x.id, agentId, subject) == key then [KindOf(x, ev.value.0, ev.value.1)] else []
  {
    var n := |rules| - 1;
    var before := EventsFor(rules[..n], agentId, subject, r, luck[..n]);
    match EvalRule(rules[n], r)
    case None =>
      assert Projection(before, key) + [] == Projection(before, key);
    case Some(v) =>
      var ev := Event(Key(rules[n].id, agentId, subject), rules[n], v.0, v.1, luck[n]);
      assert (before + [ev])[..|before|] == before;
  }

  /** The sample a rule makes of a result it sees. */
  ghost predicate Sampled(ks: seq<Kind>, rs: seq<Result>, rule: Rule)
    requires forall r | r in rs :: Applies(rule, r)
  {
    && |ks| == |rs|
    && forall i | 0 <= i < |ks| :: (ks[i] == Breach <==> Bad(rule, rs[i])) && (ks[i] == Clear <==> Recovered(rule, rs[i]))
  }

  lemma SampledNothing(rule: Rule)
    ensures Sampled([], [], rule)
  {
  }

  lemma SampledSnoc(ks: seq<Kind>, rs: seq<Result>, rule: Rule, r: Result)
    requires (forall x | x in rs :: Applies(rule, x)) && Applies(rule, r) && Sampled(ks, rs, rule)
    ensures forall x | x in rs + [r] :: Applies(rule, x)
    ensures Sampled(ks + [KindOf(rule, EvalRule(rule, r).value.0, EvalRule(rule, r).value.1)], rs + [r], rule)
  {
    KindIsMeant(rule, r);
  }

  lemma {:induction false} ProjectionIsSeen(ds: seq<Delivery>, key: Key, rule: Rule)
    requires ProperDeliveries(ds) && key.ruleId == rule.id
    requires forall d, x | d in ds && x in d.rules && x.id == rule.id :: x == rule
    ensures Sampled(Projection(AllEvents(ds), key), Seen(ds, rule, key.agentId, key.subject), rule)
  {
    if ds == [] {
      SampledNothing(rule);
    } else {
      var init, d := ds[..|ds| - 1], ds[|ds| - 1];
      assert d in ds && forall x | x in init :: x in ds;
      ProjectionIsSeen(init, key, rule);
      SeenStep(AllEvents(init), d, key, rule, Seen(init, rule, key.agentId, key.subject));
    }
  }

  lemma SeenStep(evs: seq<Event>, d: Delivery, key: Key, rule: Rule, rs: seq<Result>)
    requires |d.luck| == |d.rules| && key.ruleId == rule.id
    requires forall i, j | 0 <= i < j < |d.rules| :: d.rules[i].id != d.rules[j].id
    requires forall x | x in d.rules && x.id == rule.id :: x == rule
    requires (forall r | r in rs :: Applies(rule, r)) && Sampled(Projection(evs, key), rs, rule)
    ensures var added := if Reaches(d, rule, key.agentId, key.subject) then [d.result] else [];
            && (forall r | r in rs + added :: Applies(rule, r))
            && Sampled(Projection(evs + EventsFor(d.rules, d.agentId, d.subject, d.result, d.luck), key), rs + added, rule)
  {
    ProjectionConcat(evs, EventsFor(d.rules, d.agentId, d.subject, d.result, d.luck), key);
    EventsProjection(d.rules, d.agentId, d.subject, d.result, d.luck, key, rule);
    if Reaches(d, rule, key.agentId, key.subject) {
      SampledSnoc(Projection(evs, key), rs, rule, d.result);
    } else {
      assert Projection(evs, key) + [] == Projection(evs, key) && rs + [] == rs;
    }
  }

  lemma {:induction false} EventsAreProper(rules: seq<Rule>, agentId: string, subject: string, r: Result, luck: seq<StoreLuck>)
    requires |luck| == |rules|
    ensures forall ev | ev in EventsFor(rules, agentId, subject, r, luck) ::
              ev.rule in rules && ev.key == Key(ev.rule.id, agentId, subject)
  {
    if rules != [] {
      var n := |rules| - 1;
      EventsAreProper(rules[..n], agentId, subject, r, luck[..n]);
      assert rules[n] in rules && forall y | y in rules[..n] :: y in rules;
    }
  }

  lemma {:induction false} AllEventsOfRules(ds: seq<Delivery>)
    requires forall d | d in ds :: |d.luck| == |d.rules|
    ensures forall ev | ev in AllEvents(ds) ::
              exists d | d in ds :: ev.rule in d.rules && ev.key.ruleId == ev.rule.id && ev.key.agentId == d.agentId
  {
    if ds != [] {
      var init, d := ds[..|ds| - 1], ds[|ds| - 1];
      assert d in ds && forall x | x in init :: x in ds;
      AllEventsOfRules(init);
      EventsAreProper(d.rules, d.agentId, d.subject, d.result, d.luck);
      forall ev | ev in AllEvents(ds)
        ensures exists x | x in ds :: ev.rule in x.rules && ev.key.ruleId == ev.rule.id && ev.key.agentId == x.agentId
      {
        if ev in AllEvents(init) {
        } else {
          assert ev in EventsFor(d.rules, d.agentId, d.subject, d.result, d.luck);
        }
      }
    }
  }

  lemma DeliveriesAreProper(ds: seq<Delivery>)
    requires ProperDeliveries(ds)
    ensures Proper(AllEvents(ds))
  {
    AllEventsOfRules(ds);
    var evs := AllEvents(ds);
    forall ev, ev' | ev in evs && ev' in evs && ev.rule.id == ev'.rule.id
      ensures ev.rule == ev'.rule
    {
      var d :| d in ds && ev.rule in d.rules;
      var d' :| d' in ds && ev'.rule in d'.rules;
    }
  }

  lemma DeliveriesRuleOf(ds: seq<Delivery>, key: Key, rule: Rule)
    requires ProperDeliveries(ds) && '|' !in key.agentId && '|' !in rule.id && key.ruleId == rule.id
    requires rule.forCount >= 1 && rule.clearCount >= 1
    requires forall d, x | d in ds && x in d.rules && x.id == rule.id :: x == rule
    ensures RuleOf(AllEvents(ds), key, rule)
  {
    AllEventsOfRules(ds);
  }

  lemma WindowsAreRuns(ks: seq<Kind>, rs: seq<Result>, rule: Rule, e: nat)
    requires (forall r | r in rs :: Applies(rule, r)) && Sampled(ks, rs, rule)
    ensures WindowEnds(ks, Breach, rule.forCount, e) <==> BadRun(rs, rule, e)
    ensures WindowEnds(ks, Clear, rule.clearCount, e) <==> GoodRun(rs, rule, e)
  {
  }

  lemma LastWindowsCompare(ks: seq<Kind>, rs: seq<Result>, rule: Rule)
    requires (forall r | r in rs :: Applies(rule, r)) && Sampled(ks, rs, rule)
    requires rule.forCount >= 1 && rule.clearCount >= 1
    ensures LastWindow(ks, Breach, rule.forCount) > LastWindow(ks, Clear, rule.clearCount) <==> BadLast(rs, rule)
  {
    var b, c := LastWindow(ks, Breach, rule.forCount), LastWindow(ks, Clear, rule.clearCount);
    LastWindowExact(ks, Breach, rule.forCount);
    LastWindowExact(ks, Clear, rule.clearCount);
    forall e: nat
      ensures WindowEnds(ks, Breach, rule.forCount, e) <==> BadRun(rs, rule, e)
      ensures WindowEnds(ks, Clear, rule.clearCount, e) <==> GoodRun(rs, rule, e)
    {
      WindowsAreRuns(ks, rs, rule, e);
    }
    if b > c {
      assert BadRun(rs, rule, b);
    }
    if BadLast(rs, rule) {
      var e :| BadRun(rs, rule, e) && forall later | GoodRun(rs, rule, later) :: later < e;
      assert c != 0 ==> GoodRun(rs, rule, c);
    }
  }

  /** From results to alerts: after any results of any agents, watched by any rules,
      the alert of a rule, agent and subject is firing iff among the results the
      rule saw of them ForCount bad ones in a row end after every ClearCount
      recovered ones in a row. Bad and recovered are read off the results. */
  lemma FiringOverResults(ds: seq<Delivery>, key: Key, rule: Rule)
    requires ProperDeliveries(ds) && '|' !in key.agentId && '|' !in rule.id && key.ruleId == rule.id
    requires rule.forCount >= 1 && rule.clearCount >= 1
    requires forall d, x | d in ds && x in d.rules && x.id == rule.id :: x == rule
    requires forall ev | ev in AllEvents(ds) && ev.key == key :: Lucky(ev.luck)
    ensures HasFiring(Delivered(IDLE, ds), key) <==> BadLast(Seen(ds, rule, key.agentId, key.subject), rule)
  {
    DeliveredIsRun(IDLE, ds);
    DeliveriesAreProper(ds);
    DeliveriesRuleOf(ds, key, rule);
    FiringMatchesWindows(AllEvents(ds), key, rule);
    ProjectionIsSeen(ds, key, rule);
    LastWindowsCompare(Projection(AllEvents(ds), key), Seen(ds, rule, key.agentId, key.subject), rule);
  }

  ghost predicate AboveRun(vs: seq<real>, threshold: real, n: nat, e: nat) {
    1 <= n <= e <= |vs| && forall i | e - n <= i < e :: vs[i] > threshold
  }

  ghost predicate BelowRun(vs: seq<real>, threshold: real, clear: real, n: nat, e: nat) {
    1 <= n <= e <= |vs| && forall i | e - n <= i < e :: vs[i] <= threshold && vs[i] < clear
  }

  /** The rule is of the kind "latency above ..., clear below ...". */
  predicate WatchesAbove(rule: Rule, clear: real) {
    rule.operator == ">" && rule.clearThreshold == Some(clear) && rule.metric != "unhealthy" && rule.metric != "state"
  }

  lemma RunsInNumbers(rs: seq<Result>, rule: Rule, vs: seq<real>, clear: real, e: nat)
    requires WatchesAbove(rule, clear) && (forall r | r in rs :: Applies(rule, r))
    requires |vs| == |rs| && forall i | 0 <= i < |rs| :: rs[i].metric == Some(vs[i])
    ensures BadRun(rs, rule, e) <==> AboveRun(vs, rule.threshold, rule.forCount, e)
    ensures GoodRun(rs, rule, e) <==> BelowRun(vs, rule.threshold, clear, rule.clearCount, e)
  {
    assert forall i | 0 <= i < |rs| :: rs[i] in rs;
  }

  /** The same for such a rule, in numbers: ForCount readings in a row above the
      threshold end after every ClearCount in a row that are at most the threshold
      and below the clear threshold. */
  lemma FiringAbove(ds: seq<Delivery>, key: Key, rule: Rule, vs: seq<real>, clear: real)
    requires ProperDeliveries(ds) && '|' !in key.agentId && '|' !in rule.id && key.ruleId == rule.id
    requires rule.forCount >= 1 && rule.clearCount >= 1
    requires forall d, x | d in ds && x in d.rules && x.id == rule.id :: x == rule
    requires forall ev | ev in AllEvents(ds) && ev.key == key :: Lucky(ev.luck)
    requires WatchesAbove(rule, clear)
    requires var rs := Seen(ds, rule, key.agentId, key.subject);
             |vs| == |rs| && forall i | 0 <= i < |rs| :: rs[i].metric == Some(vs[i])
    ensures HasFiring(Delivered(IDLE, ds), key) <==>
            exists e | AboveRun(vs, rule.threshold, rule.forCount, e) ::
              forall later | BelowRun(vs, rule.threshold, clear, rule.clearCount, later) :: later < e
  {
    FiringOverResults(ds, key, rule);
    BadLastInNumbers(Seen(ds, rule, key.agentId, key.subject), rule, vs, clear);
  }

  lemma BadLastInNumbers(rs: seq<Result>, rule: Rule, vs: seq<real>, clear: real)
    requires WatchesAbove(rule, clear) && (forall r | r in rs :: Applies(rule, r))
    requires |vs| == |rs| && forall i | 0 <= i < |rs| :: rs[i].metric == Some(vs[i])
    ensures BadLast(rs, rule) <==>
            exists e | AboveRun(vs, rule.threshold, rule.forCount, e) ::
              forall later | BelowRun(vs, rule.threshold, clear, rule.clearCount, later) :: later < e
  {
    forall e: nat
      ensures BadRun(rs, rule, e) <==> AboveRun(vs, rule.threshold, rule.forCount, e)
      ensures GoodRun(rs, rule, e) <==> BelowRun(vs, rule.threshold, clear, rule.clearCount, e)
    {
      RunsInNumbers(rs, rule, vs, clear, e);
    }
    if BadLast(rs, rule) {
      var e :| BadRun(rs, rule, e) && forall later | GoodRun(rs, rule, later) :: later < e;
      assert AboveRun(vs, rule.threshold, rule.forCount, e);
    }
    if e :| AboveRun(vs, rule.threshold, rule.forCount, e) &&
            forall later | BelowRun(vs, rule.threshold, clear, rule.clearCount, later) :: later < e {
      assert BadRun(rs, rule, e);
    }
  }
}
