/** adapters/clickhouse/retention.go, restoreScript: the shell's side of the restore,
    statement by statement, with its test after each. */
module ClickHouseScript {
  import opened Wrappers
  import opened ClickHouse

  /** What one call of the client came to: its exit code, whether RESTORED was in its
      output, and the number it printed for a count. */
  datatype Reply = Reply(code: nat, restored: bool, count: nat)

  predicate Ends(e: Event) {
    e.Answer? || e.NoStatusWord? || e.Fail?
  }

  function ReplyTo(e: Event, s: State): Reply
    requires Ends(e)
  {
    match e
    case Fail(code) => Reply(code, false, 0)
    case NoStatusWord => Reply(0, false, 0)
    case _ => Reply(0, true, |s.tables|)
  }

  /** The script beside a server that makes these moves, in this order. */
  class Client {
    const archive: Archive
    const moves: seq<Event>
    var at: nat
    var server: State

    ghost predicate Valid()
      reads this
    {
      && at <= |moves|
      && After(archive, Start(archive, RESTORE_SCRIPT), moves[..at]) == Some(server)
      && forall k :: 0 <= k <= |moves| ==> After(archive, Start(archive, RESTORE_SCRIPT), moves[..k]).Some?
    }

    constructor (archive: Archive, moves: seq<Event>)
      requires forall k :: 0 <= k <= |moves| ==> After(archive, Start(archive, RESTORE_SCRIPT), moves[..k]).Some?
      ensures Valid() && at == 0 && this.archive == archive && this.moves == moves
      ensures server == Start(archive, RESTORE_SCRIPT)
    {
      this.archive, this.moves, this.at := archive, moves, 0;
      this.server := Start(archive, RESTORE_SCRIPT);
    }

    /** The server's next move. */
    method Step() returns (e: Event)
      requires Valid() && at < |moves|
      modifies this
      ensures Valid() && at == old(at) + 1 && e == moves[old(at)]
      ensures Enabled(old(server), e) && server == Apply(archive, old(server), e)
    {
      assert moves[..at + 1][..at] == moves[..at];
      assert After(archive, Start(archive, RESTORE_SCRIPT), moves[..at + 1]).Some?;
      e := moves[at];
      server := Apply(archive, server, e);
      at := at + 1;
    }

    /** run: one statement, to its end; None while it still runs when the moves end. */
    method Run(statement: Statement) returns (reply: Option<Reply>)
      requires Valid() && Running(server, statement)
      modifies this
      ensures Valid()
      ensures reply.None? ==> at == |moves| && Running(server, statement)
      ensures reply.Some? && reply.value.code != 0 ==>
                server.exit == Some(if statement.StopMerges? then PIN_REFUSED_EXIT else reply.value.code)
      ensures reply.Some? && reply.value.code == 0 && !reply.value.restored ==>
                server.exit == Some(NOT_RESTORED_EXIT) && !statement.StopMerges? && !statement.CountTables?
      ensures reply.Some? && reply.value.code == 0 && reply.value.restored && !statement.CountTables? ==>
                server.todo == old(server.todo)[1..] && server.exit == if |old(server.todo)| == 1 then Some(0) else None
      ensures reply.Some? && reply.value.code == 0 && reply.value.restored && statement.CountTables? && |old(server.todo)| == 1 ==>
                server.exit == Some(if reply.value.count > 0 then 0 else EMPTY_RESTORE_EXIT)
    {
      ghost var todo := server.todo;
      while at < |moves|
        invariant Valid() && Running(server, statement) && server.todo == todo
        decreases |moves| - at
      {
        var e := Step();
        if Ends(e) {
          return Some(ReplyTo(e, server));
        }
      }
      return None;
    }
  }

  /** One restore and its two tests: over says whether the script ends here. */
  method Restore(client: Client, statement: Statement) returns (over: bool, exit: Option<nat>)
    requires client.Valid() && Running(client.server, statement) && |client.server.todo| > 1
    requires statement.RestoreStructure? || statement.RestoreData?
    modifies client
    ensures client.Valid() && exit == client.server.exit
    ensures over && exit.None? ==> client.at == |client.moves|
    ensures !over ==> client.server.todo == old(client.server.todo)[1..] && exit.None?
  {
    var reply := client.Run(statement);
    if reply.None? {
      return true, None;
    }
    if reply.value.code != 0 {
      return true, Some(reply.value.code);
    }
    if !reply.value.restored {
      return true, Some(NOT_RESTORED_EXIT);
    }
    return false, None;
  }

  method Pin(client: Client) returns (over: bool, exit: Option<nat>)
    requires client.Valid() && Running(client.server, StopMerges) && |client.server.todo| > 1
    modifies client
    ensures client.Valid() && exit == client.server.exit
    ensures over && exit.None? ==> client.at == |client.moves|
    ensures !over ==> client.server.todo == old(client.server.todo)[1..] && exit.None?
  {
    var reply := client.Run(StopMerges);
    if reply.None? {
      return true, None;
    }
    if reply.value.code != 0 {
      return true, Some(PIN_REFUSED_EXIT);
    }
    return false, None;
  }

  method CountRestored(client: Client) returns (exit: Option<nat>)
    requires client.Valid() && client.server.exit.None? && client.server.todo == [CountTables]
    modifies client
    ensures client.Valid() && exit == client.server.exit
    ensures exit.None? ==> client.at == |client.moves|
  {
    var reply := client.Run(CountTables);
    if reply.None? {
      return None;
    }
    if reply.value.code != 0 {
      return Some(reply.value.code);
    }
    return Some(if reply.value.count > 0 then 0 else EMPTY_RESTORE_EXIT);
  }

  /** restoreScript: its exit code is the one the server's own record of the run calls
      for; None while a statement still runs when the moves end. */
  method RestoreScript(archive: Archive, moves: seq<Event>) returns (exit: Option<nat>, used: nat)
    requires forall k :: 0 <= k <= |moves| ==> After(archive, Start(archive, RESTORE_SCRIPT), moves[..k]).Some?
    ensures used <= |moves| && After(archive, Start(archive, RESTORE_SCRIPT), moves[..used]).value.exit == exit
    ensures exit.None? ==> used == |moves|
  {
    var client := new Client(archive, moves);
    var over;
    over, exit := Restore(client, RestoreStructure);
    if over {
      return exit, client.at;
    }
    over, exit := Pin(client);
    if over {
      return exit, client.at;
    }
    over, exit := Restore(client, RestoreData);
    if over {
      return exit, client.at;
    }
    exit := CountRestored(client);
    used := client.at;
  }
}
