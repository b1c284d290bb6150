/** Reconciling the perfmon reflector with the configuration the server pushes. */
module Reflector {
  import opened Sequences

  datatype Config = Config(enabled: bool, port: nat, allowedCidrs: seq<string>)

  /** cancel names the context whose cancel function is stored; running holds
      the started contexts nobody has cancelled. Networks are compared, and
      therefore kept here, in their printed form. */
  datatype State = State(cancel: Option<nat>, port: nat, allowed: seq<string>, running: set<nat>, started: nat)

  const STOPPED := State(None, 0, [], {}, 0)

  /** A push: the configuration, what its CIDR list parses to, and whether the
      listener would come up. */
  datatype Push = Push(config: Option<Config>, parsed: Option<seq<string>>, listens: bool)

  predicate Enabled(p: Push) {
    p.config.Some? && p.config.value.enabled && p.config.value.port != 0
  }

  function Cancelled(s: State): State {
    if s.cancel.Some? then s.(running := s.running - {s.cancel.value}) else s
  }

  function Reconciled(s: State, p: Push): State {
    if !Enabled(p) then
      if s.cancel.Some? then Cancelled(s).(cancel := None, port := 0, allowed := []) else s
    else if p.parsed.None? then s
    else if s.cancel.Some? && s.port == p.config.value.port && s.allowed == p.parsed.value then s
    else
      var t := Cancelled(s);
      if p.listens
      then State(Some(s.started), p.config.value.port, p.parsed.value, t.running + {s.started}, s.started + 1)
      else State(None, 0, [], t.running, s.started + 1)
  }

  function Run(ps: seq<Push>): State {
    if ps == [] then STOPPED else Reconciled(Run(ps[..|ps| - 1]), ps[|ps| - 1])
  }

  /** The stored cancel is set iff the port is iff exactly one reflector runs. */
  ghost predicate Consistent(s: State) {
    && (s.cancel.Some? <==> s.port != 0)
    && s.running == (if s.cancel.Some? then {s.cancel.value} else {})
    && (s.cancel.None? ==> s.allowed == [])
    && (s.cancel.Some? ==> s.cancel.value < s.started)
  }

  lemma ReconciledConsistent(s: State, p: Push)
    requires Consistent(s)
    ensures Consistent(Reconciled(s, p))
  {
  }

  lemma {:induction false} RunConsistent(ps: seq<Push>)
    ensures Consistent(Run(ps))
    ensures Run(ps).cancel.Some? <==> |Run(ps).running| == 1
  {
    if ps != [] {
      RunConsistent(ps[..|ps| - 1]);
      ReconciledConsistent(Run(ps[..|ps| - 1]), ps[|ps| - 1]);
    }
  }

  /** The push could be honoured: nothing to run, or a list that parses and a
      listener that comes up. */
  predicate Succeeds(p: Push) {
    Enabled(p) ==> p.parsed.Some? && p.listens
  }

  /** What runs after a push that succeeds, as a function of that push alone. */
  function Wanted(p: Push): (nat, seq<string>) {
    if Enabled(p) && p.parsed.Some? then (p.config.value.port, p.parsed.value) else (0, [])
  }

  /** After any history, a successful reconcile leaves the port and the allowlist
      the last push asks for, repeating it is a no-op even if the listener would
      now fail, and an unparsable list changes nothing. */
  lemma LastConfigDecides(ps: seq<Push>, p: Push, listens: bool)
    ensures Succeeds(p) ==> (Run(ps + [p]).port, Run(ps + [p]).allowed) == Wanted(p)
    ensures Succeeds(p) ==> Run(ps + [p] + [p.(listens := listens)]) == Run(ps + [p])
    ensures Enabled(p) && p.parsed.None? ==> Run(ps + [p]) == Run(ps)
  {
    RunConsistent(ps);
    assert (ps + [p])[..|ps|] == ps;
    var again := ps + [p] + [p.(listens := listens)];
    assert again[..|again| - 1] == ps + [p];
  }

  /** The other outcomes: another port or list replaces the running reflector by a new
      one, and if that cannot listen nothing runs and nothing is stored. */
  lemma ChangeRestarts(ps: seq<Push>, p: Push)
    requires Enabled(p) && p.parsed.Some? && (Run(ps).port, Run(ps).allowed) != Wanted(p)
    ensures var was, now := Run(ps), Run(ps + [p]);
            if p.listens then now.running !! was.running && |now.running| == 1
            else now.running == {} && now.cancel == None && now.port == 0 && now.allowed == []
  {
    RunConsistent(ps);
    RunConsistent(ps + [p]);
    assert (ps + [p])[..|ps|] == ps;
  }

  class Agent {
    var cancel: Option<nat>
    var port: nat
    var allowed: seq<string>
    ghost var running: set<nat>
    var started: nat

    ghost function Contents(): State
      reads this
    {
      State(cancel, port, allowed, running, started)
    }

    constructor ()
      ensures Contents() == STOPPED
    {
      cancel, port, allowed, running, started := None, 0, [], {}, 0;
    }

    /** Calling a stored cancel function. */
    method CancelContext(ctx: nat)
      modifies this`running
      ensures running == old(running) - {ctx}
    {
      running := running - {ctx};
    }

    method Reconcile(p: Push)
      requires Consistent(Contents())
      modifies this
      ensures Contents() == Reconciled(old(Contents()), p) && Consistent(Contents())
    {
      var enabled := p.config.Some? && p.config.value.enabled && p.config.value.port != 0;
      if !enabled {
        if cancel.Some? {
          CancelContext(cancel.value);
          cancel, port, allowed := None, 0, [];
        }
        return;
      }
      if p.parsed.None? {
        return;
      }
      var nets := p.parsed.value;
      var same := SameCidrs(allowed, nets);
      if cancel.Some? && port == p.config.value.port && same {
        return;
      }
      if cancel.Some? {
        CancelContext(cancel.value);
      }
      var ctx := started;
      started, running := started + 1, running + {ctx};
      if !p.listens {
        CancelContext(ctx);
        cancel, port, allowed := None, 0, [];
        return;
      }
      cancel, port, allowed := Some(ctx), p.config.value.port, nets;
    }
  }

  method SameCidrs(a: seq<string>, b: seq<string>) returns (same: bool)
    ensures same <==> a == b
  {
    if |a| != |b| {
      return false;
    }
    for i := 0 to |a|
      invariant a[..i] == b[..i]
    {
      if a[i] != b[i] {
        return false;
      }
    }
    return true;
  }
}
