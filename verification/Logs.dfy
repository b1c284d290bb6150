/** The log table: which scope a line belongs to, which one its insert prunes, and
    what each scope holds. */
module Logs {
  import opened Sequences
  import opened History

  const DEFAULT_LOG_HISTORY: nat := 1000

  /** InsertLog's two scopes; rows of any other source are never pruned. */
  datatype LogScope = ServerLog | AgentLog(agentId: string) | OtherLog(source: string)

  class LogStore {
    var history: nat
    var table: BoundedTable<LogScope, string>

    constructor ()
      ensures history == DEFAULT_LOG_HISTORY && fresh(table) && table.Contents() == Table([], 0)
    {
      history := DEFAULT_LOG_HISTORY;
      table := new BoundedTable();
    }

    method SetLogHistory(n: int)
      modifies this
      ensures table == old(table)
      ensures history == if n > 0 then n else old(history)
    {
      if n > 0 {
        history := n;
      }
    }

    method InsertLog(source: string, agentId: string, line: string, outcome: Outcome)
      modifies table
      ensures table.Contents() == Apply(old(table.Contents()), LogInsert(source, agentId, line, history, outcome))
    {
      table.Add(LogInsert(source, agentId, line, history, outcome));
    }
  }

  function LogInsert(source: string, agentId: string, line: string, history: nat, outcome: Outcome): Insert<LogScope, string> {
    if source == "agent" then Insert(AgentLog(agentId), AgentLog(agentId), line, history, outcome)
    else Insert(if source == "server" then ServerLog else OtherLog(source), ServerLog, line, history, outcome)
  }

  datatype LogLine = LogLine(source: string, agentId: string, line: string)

  /** The calls a sequence of lines causes at one history size, none failing. */
  function LogInserts(lines: seq<LogLine>, n: nat): (r: seq<Insert<LogScope, string>>)
    ensures |r| == |lines|
  {
    seq(|lines|, i requires 0 <= i < |lines| => LogInsert(lines[i].source, lines[i].agentId, lines[i].line, n, Stored))
  }

  function AgentLines(lines: seq<LogLine>, agentId: string): seq<string> {
    if lines == [] then []
    else
      var l := lines[|lines| - 1];
      AgentLines(lines[..|lines| - 1], agentId) + if l.source == "agent" && l.agentId == agentId then [l.line] else []
  }

  function SourceLines(lines: seq<LogLine>, source: string): seq<string> {
    if lines == [] then []
    else
      var l := lines[|lines| - 1];
      SourceLines(lines[..|lines| - 1], source) + if l.source == source then [l.line] else []
  }

  /** What a scope of the log table holds after those lines. */
  function Logged(lines: seq<LogLine>, n: nat, scope: LogScope): seq<string> {
    Bodies(InScope(Run(Table([], 0), LogInserts(lines, n)).rows, scope))
  }

  /** After any sequence of lines from any sources: each agent has exactly its own
      last n lines, the server its last n, and no line of another source was
      ever deleted. */
  lemma LogsBounded(lines: seq<LogLine>, n: nat, agentId: string, other: string)
    ensures Logged(lines, n, AgentLog(agentId)) == LastN(AgentLines(lines, agentId), n)
    ensures Logged(lines, n, ServerLog) == LastN(SourceLines(lines, "server"), n)
    ensures other != "agent" && other != "server" ==> Logged(lines, n, OtherLog(other)) == SourceLines(lines, other)
  {
    LogsWritten(lines, n, agentId, other);
    LogScopeBounded(lines, n, AgentLog(agentId));
    LogScopeBounded(lines, n, ServerLog);
    OtherLogKept(lines, n, other);
  }

  lemma LogScopeBounded(lines: seq<LogLine>, n: nat, scope: LogScope)
    requires !scope.OtherLog?
    ensures Logged(lines, n, scope) == LastN(Written(LogInserts(lines, n), scope), n)
  {
    BoundedHistory(LogInserts(lines, n), scope, n);
  }

  lemma OtherLogKept(lines: seq<LogLine>, n: nat, other: string)
    ensures Logged(lines, n, OtherLog(other)) == Written(LogInserts(lines, n), OtherLog(other))
  {
    var es, scope := LogInserts(lines, n), OtherLog(other);
    WindowUnaffectedByPruning(es, scope, |Written(es, scope)|);
    HistoryIsNewestWrites(es, scope);
  }

  lemma {:induction false} LogsWritten(lines: seq<LogLine>, n: nat, agentId: string, other: string)
    ensures Written(LogInserts(lines, n), AgentLog(agentId)) == AgentLines(lines, agentId)
    ensures Written(LogInserts(lines, n), ServerLog) == SourceLines(lines, "server")
    ensures other != "agent" && other != "server" ==>
              Written(LogInserts(lines, n), OtherLog(other)) == SourceLines(lines, other)
  {
    if lines != [] {
      LogsWritten(lines[..|lines| - 1], n, agentId, other);
      assert LogInserts(lines, n)[..|lines| - 1] == LogInserts(lines[..|lines| - 1], n);
    }
  }
}
