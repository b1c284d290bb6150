/** The registry of connected agents: what ControlStream does under its lock when
    a stream starts and when it ends. Connections are numbered in the order they
    register. */
module Registry {
  datatype Event = Connect(agentId: string) | End(conn: nat)

  /** owners[c] is the agent of connection c; closed logs every close(push). */
  datatype State = State(connected: map<string, nat>, owners: seq<string>, closed: seq<nat>, ended: set<nat>)

  const EMPTY := State(map[], [], [], {})

  /** A stream ends once; an End of a connection that never was or has already
      ended is not an event of the protocol and changes nothing. */
  function Step(s: State, e: Event): State {
    match e
    case Connect(agentId) =>
      State(s.connected[agentId := |s.owners|], s.owners + [agentId],
            if agentId in s.connected then s.closed + [s.connected[agentId]] else s.closed, s.ended)
    case End(conn) =>
      if conn >= |s.owners| || conn in s.ended then s
      else
        var agentId := s.owners[conn];
        s.(connected := if agentId in s.connected && s.connected[agentId] == conn then s.connected - {agentId} else s.connected,
           ended := s.ended + {conn})
  }

  function Run(es: seq<Event>): State {
    if es == [] then EMPTY else Step(Run(es[..|es| - 1]), es[|es| - 1])
  }

  /** No later connection belongs to the same agent. */
  ghost predicate Newest(s: State, conn: nat) {
    conn < |s.owners| && forall later | conn < later < |s.owners| :: s.owners[later] != s.owners[conn]
  }

  ghost predicate Registered(s: State, conn: nat) {
    conn < |s.owners| && s.owners[conn] in s.connected && s.connected[s.owners[conn]] == conn
  }

  /** Registered connections are exactly the newest ones still live; channels
      are closed at most once, and only once replaced. */
  ghost predicate Safe(s: State) {
    && (forall c | c in s.ended :: c < |s.owners|)
    && (forall a | a in s.connected :: Registered(s, s.connected[a]) && s.owners[s.connected[a]] == a)
    && (forall c: nat :: Registered(s, c) <==> Newest(s, c) && c !in s.ended)
    && (forall i, j | 0 <= i < j < |s.closed| :: s.closed[i] != s.closed[j])
    && (forall i | 0 <= i < |s.closed| :: s.closed[i] < |s.owners| && !Newest(s, s.closed[i]))
  }

  lemma NewestAfterConnect(s: State, agentId: string, c: nat)
    requires c <= |s.owners|
    ensures Newest(Step(s, Connect(agentId)), c) <==> c == |s.owners| || (Newest(s, c) && s.owners[c] != agentId)
  {
    var t, n := Step(s, Connect(agentId)), |s.owners|;
    assert forall later | 0 <= later < n :: t.owners[later] == s.owners[later];
    if c < n && Newest(s, c) && s.owners[c] == agentId {
      assert t.owners[n] == t.owners[c];
    }
  }

  lemma ConnectSafe(s: State, agentId: string)
    requires Safe(s)
    ensures Safe(Step(s, Connect(agentId)))
  {
    var t, n := Step(s, Connect(agentId)), |s.owners|;
    forall c: nat
      ensures Registered(t, c) <==> Newest(t, c) && c !in t.ended
    {
      if c <= n {
        NewestAfterConnect(s, agentId, c);
        assert c < n ==> t.owners[c] == s.owners[c];
      }
    }
    forall i | 0 <= i < |s.closed|
      ensures !Newest(t, s.closed[i])
    {
      NewestAfterConnect(s, agentId, s.closed[i]);
    }
    if agentId in s.connected {
      NewestAfterConnect(s, agentId, s.connected[agentId]);
    }
  }

  lemma EndSafe(s: State, conn: nat)
    requires Safe(s)
    ensures Safe(Step(s, End(conn)))
  {
    var t := Step(s, End(conn));
    forall c: nat
      ensures Newest(t, c) <==> Newest(s, c)
    {
    }
  }

  /** Whatever the order in which streams start and end: each push channel is
      closed at most once and never while its connection is registered, and the
      newest connection of an agent is the registered one as long as it lives. */
  lemma {:induction false} RegistrySafe(es: seq<Event>)
    ensures Safe(Run(es))
    ensures forall i | 0 <= i < |Run(es).closed| :: !Registered(Run(es), Run(es).closed[i])
    ensures forall c: nat | Newest(Run(es), c) && c !in Run(es).ended :: Registered(Run(es), c)
  {
    if es != [] {
      RegistrySafe(es[..|es| - 1]);
      match es[|es| - 1]
      case Connect(agentId) => ConnectSafe(Run(es[..|es| - 1]), agentId);
      case End(conn) => EndSafe(Run(es[..|es| - 1]), conn);
    }
  }

  /** Connection c was replaced: its agent connected again while it was registered. */
  ghost predicate Replaced(es: seq<Event>, c: nat) {
    exists k | 0 <= k < |es| && es[k].Connect? :: Registered(Run(es[..k]), c) && Run(es[..k]).owners[c] == es[k].agentId
  }

  lemma ReplacedSnoc(es: seq<Event>, e: Event, c: nat)
    ensures Replaced(es + [e], c) <==>
            Replaced(es, c) || (e.Connect? && Registered(Run(es), c) && Run(es).owners[c] == e.agentId)
  {
    var longer := es + [e];
    assert longer[..|es|] == es && longer[|es|] == e;
    if Replaced(es, c) {
      var k :| 0 <= k < |es| && es[k].Connect? && Registered(Run(es[..k]), c) && Run(es[..k]).owners[c] == es[k].agentId;
      assert longer[..k] == es[..k] && longer[k] == es[k];
    }
    if Replaced(longer, c) {
      var k :| 0 <= k < |longer| && longer[k].Connect? && Registered(Run(longer[..k]), c) &&
               Run(longer[..k]).owners[c] == longer[k].agentId;
      assert k < |es| ==> longer[..k] == es[..k] && longer[k] == es[k];
    }
  }

  /** The closed channels are exactly those of the replaced connections: none is
      left open behind a reconnect, and none is closed for another reason. */
  lemma {:induction false} ClosedExactly(es: seq<Event>, c: nat)
    ensures c in Run(es).closed <==> Replaced(es, c)
  {
    if es != [] {
      var init, e := es[..|es| - 1], es[|es| - 1];
      ClosedExactly(init, c);
      RegistrySafe(init);
      assert es == init + [e];
      ReplacedSnoc(init, e, c);
      CloseStep(Run(init), e, c);
    }
  }

  lemma CloseStep(s: State, e: Event, c: nat)
    requires Safe(s)
    ensures c in Step(s, e).closed <==> c in s.closed || (e.Connect? && Registered(s, c) && s.owners[c] == e.agentId)
  {
  }

  /** An older stream ending unregisters nobody. */
  lemma OlderEndIsHarmless(es: seq<Event>, conn: nat)
    requires !Newest(Run(es), conn)
    ensures Step(Run(es), End(conn)).connected == Run(es).connected
  {
    RegistrySafe(es);
    var s := Run(es);
    if conn < |s.owners| {
      assert !Registered(s, conn);
    }
  }

  /** Closing a closed channel would panic, so the log doubles as the obligation
      that a close is only ever issued for an open channel. */
  class Server {
    var connected: map<string, nat>
    var owners: seq<string>
    var closed: seq<nat>
    var ended: set<nat>

    function Contents(): State
      reads this
    {
      State(connected, owners, closed, ended)
    }

    constructor ()
      ensures Contents() == EMPTY
    {
      connected, owners, closed, ended := map[], [], [], {};
    }

    method ClosePush(conn: nat)
      requires conn !in closed
      modifies this`closed
      ensures closed == old(closed) + [conn]
    {
      closed := closed + [conn];
    }

    method StreamStarts(agentId: string) returns (conn: nat)
      requires Safe(Contents())
      modifies this
      ensures Safe(Contents()) && Contents() == Step(old(Contents()), Connect(agentId)) && conn == |old(owners)|
    {
      ConnectSafe(Contents(), agentId);
      conn := |owners|;
      if agentId in connected {
        ClosePush(connected[agentId]);
      }
      connected := connected[agentId := conn];
      owners := owners + [agentId];
    }

    method StreamEnds(conn: nat)
      requires Safe(Contents()) && conn < |owners| && conn !in ended
      modifies this
      ensures Safe(Contents()) && Contents() == Step(old(Contents()), End(conn))
    {
      EndSafe(Contents(), conn);
      var agentId := owners[conn];
      if agentId in connected && connected[agentId] == conn {
        connected := connected - {agentId};
      }
      ended := ended + {conn};
    }
  }
}
