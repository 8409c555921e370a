/** The shared objects of the server and the sections of a client thread that run under its lock. */
module Servers {
  import opened Wrappers
  import opened Text
  import opened Engine
  import opened Commands
  import opened Cores
  import opened Payloads
  import opened Protocol
  import opened ServerCores
  import opened Registry
  import OpTables

  lemma SnapshotPieces(before: string, role: Role, version: Version, text: string)
    ensures before + (RoleName(role) + "\n") + (Decimal(version) + "\n") + (Decimal(|text|) + "\n") + text ==
            before + Snapshot(role, version, text)
  {
    var a, b, c := RoleName(role) + "\n", Decimal(version) + "\n", Decimal(|text|) + "\n";
    Assoc(before + a + b, c, text);
    Assoc(before + a, b, c + text);
    Assoc(before, a, b + (c + text));
  }

  /** What a submitted line and the commit after it send out, and the core they leave. */
  function Published(core: Core, user: string, role: Role, line: string): (string, Core) {
    var (payload, after) := Publish(Cores.Submit(core, user, role, line).1);
    (Print(payload), after)
  }

  /** The shared state after a line has been submitted, committed and its payload broadcast. */
  function AfterCommand(s: System, user: string, role: Role, line: string): System {
    var (payload, core) := Published(s.core, user, role, line);
    System(core, Protocol.Broadcast(s.clients, payload))
  }

  lemma JoinStep(s: System, pid: int, user: string, role: Role)
    ensures Protocol.Step(s, Join(pid, user, Some(role))) ==
            if Protocol.Find(s.clients, pid).Some? then s
            else
              var text := Snapshot(role, s.core.version, s.core.doc.committed);
              s.(clients := [Protocol.Client(pid, user, role, text)] + s.clients)
  {
  }

  lemma UnknownStep(s: System, pid: int, user: string)
    ensures !IsJoin(s, Join(pid, user, None)) && Protocol.Step(s, Join(pid, user, None)) == s
  {
  }

  lemma LeaveStep(s: System, pid: int)
    ensures Protocol.Step(s, Hangup(pid)) == s.(clients := Protocol.Remove(s.clients, pid))
  {
  }

  lemma FarewellStep(s: System, pid: int, line: string)
    requires IsFarewell(line)
    ensures Protocol.Step(s, Receive(pid, line)) == Protocol.Step(s, Hangup(pid))
  {
  }

  lemma StrangerStep(s: System, pid: int, line: string)
    requires !IsFarewell(line) && Protocol.Find(s.clients, pid).None?
    ensures Protocol.Step(s, Receive(pid, line)) == s
  {
  }

  lemma CommandStep(s: System, pid: int, user: string, role: Role, line: string)
    requires IsCommand(s, Receive(pid, line))
    requires Protocol.Find(s.clients, pid).value.user == user && Protocol.Find(s.clients, pid).value.role == role
    ensures Protocol.Step(s, Receive(pid, line)) == AfterCommand(s, user, role, line)
  {
  }

  /** What a join does to the nodes of the registry: a new one is put in front of those that stay. */
  ghost predicate NodesAfterJoin(before: seq<ClientConn>, joins: bool, pid: int, out: OutStream,
                                 after: seq<ClientConn>) {
    if joins then |after| > 0 && after[1..] == before && after[0].pid == pid && after[0].out == out
    else after == before
  }

  class Server {
    const core: ServerCore
    const registry: ClientRegistry

    ghost function State(): System
      requires registry.Ok()
      reads core, core.doc, core.doc.table, core.doc.table.spine, registry, registry.spine, registry.outs
    {
      System(core.State(), registry.Clients())
    }

    ghost predicate Ok()
      reads core, core.doc, core.doc.table, core.doc.table.spine, registry, registry.spine
    {
      core.Ok() && registry.Ok() && Distinct(registry.outs)
    }

    /** What every section keeps: the queues of other documents, and that the objects it reaches were there
        before or are new. */
    twostate predicate Keeps()
      reads core, core.doc, core.doc.table, core.doc.table.spine, registry
    {
      core.doc.table.Keeps(core.doc.address) && registry.Keeps()
    }

    twostate lemma NothingTouched()
      requires Ok() && unchanged(core.doc.table, registry)
      requires core.doc.table.Slots() == old(core.doc.table.Slots())
      ensures Keeps()
    {
    }

    constructor ()
      ensures Ok() && State() == START
      ensures fresh(core) && fresh(core.doc) && fresh(core.doc.table) && core.doc.table.spine == []
      ensures fresh(registry) && registry.spine == [] && registry.outs == []
    {
      core := new ServerCore();
      registry := new ClientRegistry();
    }

    method SendInitialDocument(out: OutStream, role: Role)
      modifies out
      ensures out.text == old(out.text) + Snapshot(role, core.currentVersion, core.doc.committed)
    {
      var text := core.doc.committed;
      SnapshotPieces(out.text, role, core.currentVersion, text);
      out.Write(RoleName(role) + "\n");
      out.Write(Decimal(core.currentVersion) + "\n");
      out.Write(Decimal(|text|) + "\n");
      if |text| > 0 {
        out.Write(text);
      }
    }

    /** Registers a client that has got its snapshot. */
    method Register(pid: int, user: string, role: Role, out: OutStream)
      requires Ok() && out !in registry.outs
      requires out.text == Snapshot(role, core.currentVersion, core.doc.committed)
      modifies registry
      ensures Ok()
      ensures State() == Protocol.Step(old(State()), Join(pid, user, Some(role)))
      ensures registry.outs == if IsJoin(old(State()), Join(pid, user, Some(role))) then [out] + old(registry.outs)
                               else old(registry.outs)
      ensures NodesAfterJoin(old(registry.spine), IsJoin(old(State()), Join(pid, user, Some(role))), pid, out,
                             registry.spine)
      ensures forall i :: 0 <= i < |registry.spine| ==>
                registry.spine[i] in old(registry.spine) || fresh(registry.spine[i])
      ensures core.doc.table.Keeps(core.doc.address)
    {
      hide Consistent, OpTables.OpTable.Ok, OpTables.OpTable.Queue, Protocol.Step, Protocol.Find, Snapshot;
      JoinStep(State(), pid, user, role);
      var ok := registry.Add(pid, user, role, out);
      assert core.State() == old(core.State());
      if ok {
        DistinctCons(out, old(registry.outs));
      }
    }

    /** A stream to a new client, with its snapshot. */
    method Greet(role: Role) returns (out: OutStream)
      ensures fresh(out) && out.text == Snapshot(role, core.currentVersion, core.doc.committed)
    {
      out := new OutStream();
      SendInitialDocument(out, role);
      assert "" + Snapshot(role, core.currentVersion, core.doc.committed) ==
             Snapshot(role, core.currentVersion, core.doc.committed);
    }

    /** A client whose role is known is greeted and registered. */
    method Enter(pid: int, user: string, role: Role) returns (out: OutStream)
      requires Ok()
      modifies registry
      ensures Ok()
      ensures State() == Protocol.Step(old(State()), Join(pid, user, Some(role)))
      ensures fresh(out) && out.text == Snapshot(role, core.currentVersion, core.doc.committed)
      ensures registry.outs == if IsJoin(old(State()), Join(pid, user, Some(role))) then [out] + old(registry.outs)
                               else old(registry.outs)
      ensures NodesAfterJoin(old(registry.spine), IsJoin(old(State()), Join(pid, user, Some(role))), pid, out,
                             registry.spine)
      ensures Keeps()
    {
      hide ServerCore.Ok, ServerCore.State, ClientRegistry.Clients, OpTables.OpTable.Ok, OpTables.OpTable.Queue;
      hide IsJoin, Protocol.Step, Snapshot;
      out := Greet(role);
      Register(pid, user, role, out);
    }

    /** A new thread connects its client: the snapshot is sent and the client registered in one section. An
        unknown user is told so, and one whose process is registered already gets its snapshot in vain. */
    method Connect(pid: int, user: string, auth: Option<Role>) returns (out: OutStream)
      requires Ok()
      modifies registry
      ensures Ok()
      ensures State() == Protocol.Step(old(State()), Join(pid, user, auth))
      ensures fresh(out)
      ensures out.text == if auth.None? then "Reject UNAUTHORISED\n"
                          else Snapshot(auth.value, core.currentVersion, core.doc.committed)
      ensures registry.outs == if IsJoin(old(State()), Join(pid, user, auth)) then [out] + old(registry.outs)
                               else old(registry.outs)
      ensures NodesAfterJoin(old(registry.spine), IsJoin(old(State()), Join(pid, user, auth)), pid, out, registry.spine)
      ensures Keeps()
    {
      hide ServerCore.Ok, ServerCore.State, ClientRegistry.Clients, OpTables.OpTable.Ok, OpTables.OpTable.Queue;
      hide IsJoin, Protocol.Step, Snapshot;
      if auth.None? {
        UnknownStep(State(), pid, user);
        out := new OutStream();
        out.Write("Reject UNAUTHORISED\n");
        NothingTouched();
      } else {
        out := Enter(pid, user, auth.value);
      }
    }

    /** One command of a registered client is one step of the state machine. */
    method CommandSection(ghost pid: int, username: string, role: Role, line: string)
      requires Ok() && IsCommand(State(), Receive(pid, line))
      requires var client := Protocol.Find(registry.Clients(), pid).value;
               client.user == username && client.role == role
      modifies core, core.doc, core.doc.table, core.doc.table.spine, registry.outs
      ensures Ok()
      ensures State() == Protocol.Step(old(State()), Receive(pid, line))
      ensures Keeps()
    {
      CommandStep(State(), pid, username, role, line);
      SubmitCommitBroadcast(username, role, line);
    }

    method SubmitCommitBroadcast(username: string, role: Role, line: string)
      requires Ok()
      modifies core, core.doc, core.doc.table, core.doc.table.spine, registry.outs
      ensures Ok()
      ensures core.State() == Published(old(core.State()), username, role, line).1
      ensures registry.Clients() ==
              Protocol.Broadcast(old(registry.Clients()), Published(old(core.State()), username, role, line).0)
      ensures core.doc.table.Keeps(core.doc.address)
    {
      hide ServerCore.Ok, ServerCore.State, ClientRegistry.Ok, ClientRegistry.Clients, Published, Protocol.Broadcast;
      hide OpTables.OpTable.Ok, OpTables.OpTable.Queue;
      var payload := SubmitAndCommit(username, role, line);
      registry.Broadcast(payload);
    }

    method SubmitAndCommit(username: string, role: Role, line: string) returns (payload: string)
      requires core.Ok()
      modifies core, core.doc, core.doc.table, core.doc.table.spine
      ensures core.Ok() && core.doc.table.Keeps(core.doc.address)
      ensures (payload, core.State()) == Published(old(core.State()), username, role, line)
    {
      var result := core.Submit(username, role, line);
      payload := core.Commit();
    }

    /** The thread ends and unregisters its client. */
    method Disconnect(pid: int)
      requires Ok()
      modifies registry, registry.spine
      ensures Ok()
      ensures State() == Protocol.Step(old(State()), Hangup(pid))
      ensures registry.spine == Drop(old(registry.spine), pid) && Keeps()
    {
      hide Consistent, OpTables.OpTable.Ok, OpTables.OpTable.Queue, Protocol.Step, Protocol.Remove, Protocol.Find, Drop;
      LeaveStep(State(), pid);
      var ok := registry.Remove(pid);
    }

    /** A line of a client other than a farewell. The thread knows the name and role it registered. */
    method HandleCommand(pid: int, line: string)
      requires Ok() && !IsFarewell(line)
      modifies core, core.doc, core.doc.table, core.doc.table.spine, registry.outs
      ensures Ok()
      ensures State() == Protocol.Step(old(State()), Receive(pid, line))
      ensures Keeps()
    {
      hide ServerCore.Ok, ServerCore.State, ClientRegistry.Clients, OpTables.OpTable.Ok, OpTables.OpTable.Queue;
      hide ClientRegistry.Ok, Protocol.Step, Protocol.Find, IsFarewell;
      var thread := registry.Find(pid);
      if thread == null {
        StrangerStep(State(), pid, line);
        NothingTouched();
        return;
      }
      CommandSection(pid, thread.username, thread.role, line);
    }

    /** The thread of a client handles a line: a farewell unregisters the client, any other line is submitted,
        committed and broadcast in one section. */
    method HandleLine(pid: int, line: string)
      requires Ok()
      modifies core, core.doc, core.doc.table, core.doc.table.spine, registry, registry.spine, registry.outs
      ensures Ok()
      ensures State() == Protocol.Step(old(State()), Receive(pid, line))
      ensures registry.spine == if IsFarewell(line) then Drop(old(registry.spine), pid) else old(registry.spine)
      ensures Keeps()
    {
      hide Consistent, OpTables.OpTable.Ok, OpTables.OpTable.Queue, Protocol.Step, Drop, ServerCore.State;
      if line == "DISCONNECT\n" || line == "QUIT\n" {
        FarewellStep(State(), pid, line);
        Disconnect(pid);
        return;
      }
      HandleCommand(pid, line);
    }
  }
}
