/** Whole runs of the server objects: any events, in any order, from the start of the server. */
module ServerRuns {
  import opened Wrappers
  import opened OpTables
  import opened Protocol
  import opened Registry
  import opened ServerCores
  import opened Servers

  /** The stream of every registered client is the one that the join of its process created. */
  ghost predicate StreamsFrom(spine: seq<ClientConn>, events: seq<Event>, streams: seq<OutStream?>) {
    |streams| == |events| && forall i :: 0 <= i < |spine| ==> HasStream(spine[i], events, streams)
  }

  ghost predicate HasStream(node: ClientConn, events: seq<Event>, streams: seq<OutStream?>)
    requires |streams| == |events|
  {
    var m := JoinedAt(events, node.pid);
    m < |events| && streams[m] == node.out
  }

  /** The nodes after an event: those before it with a new one in front, or some of those before it. */
  ghost predicate NodesAfter(before: seq<ClientConn>, joins: bool, e: Event, out: OutStream?, after: seq<ClientConn>) {
    if joins then out != null && NodesAfterJoin(before, true, e.pid, out, after)
    else forall i :: 0 <= i < |after| ==> after[i] in before
  }

  lemma JoinedAtSnoc(events: seq<Event>, e: Event, pid: int)
    ensures JoinedAt(events + [e], pid) ==
            if IsJoin(Run(events), e) && e.pid == pid then |events| else JoinedAt(events, pid)
  {
    assert (events + [e])[..|events|] == events;
  }

  lemma HasStreamStill(node: ClientConn, events: seq<Event>, streams: seq<OutStream?>, e: Event, out: OutStream?)
    requires |streams| == |events| && HasStream(node, events, streams)
    requires !(IsJoin(Run(events), e) && e.pid == node.pid)
    ensures HasStream(node, events + [e], streams + [out])
  {
    JoinedAtSnoc(events, e, node.pid);
  }

  lemma StreamsStillFrom(before: seq<ClientConn>, events: seq<Event>, streams: seq<OutStream?>,
                         e: Event, out: OutStream?, after: seq<ClientConn>)
    requires StreamsFrom(before, events, streams) && NodesAfter(before, IsJoin(Run(events), e), e, out, after)
    requires Distinct(PidsOf(after))
    ensures StreamsFrom(after, events + [e], streams + [out])
  {
    forall i | 0 <= i < |after|
      ensures HasStream(after[i], events + [e], streams + [out])
    {
      if !IsJoin(Run(events), e) {
        assert after[i] in before;
        var k :| 0 <= k < |before| && before[k] == after[i];
        HasStreamStill(after[i], events, streams, e, out);
      } else if i == 0 {
        JoinedAtSnoc(events, e, after[0].pid);
      } else {
        assert after[i] == before[i - 1];
        assert PidsOf(after)[0] != PidsOf(after)[i];
        HasStreamStill(after[i], events, streams, e, out);
      }
    }
  }

  /** One event. Joins return the stream to the new client. */
  method Handle(server: Server, e: Event) returns (out: OutStream?)
    requires server.Ok()
    modifies server.core, server.core.doc, server.core.doc.table, server.core.doc.table.spine
    modifies server.registry, server.registry.spine, server.registry.outs
    ensures server.Ok() && server.Keeps()
    ensures server.State() == Protocol.Step(old(server.State()), e)
    ensures NodesAfter(old(server.registry.spine), IsJoin(old(server.State()), e), e, out, server.registry.spine)
    ensures (out != null <==> e.Join?) && (out != null ==> fresh(out))
    ensures e.Join? && e.auth.None? ==> out.text == "Reject UNAUTHORISED\n" && out !in server.registry.outs
  {
    match e
    case Join(pid, user, auth) =>
      out := server.Connect(pid, user, auth);
    case Receive(pid, line) =>
      server.HandleLine(pid, line);
      out := null;
    case Hangup(pid) =>
      server.Disconnect(pid);
      out := null;
  }

  twostate predicate AllFresh(new server: Server)
    reads server.core.doc.table, server.registry
  {
    && fresh(server.core) && fresh(server.core.doc) && fresh(server.core.doc.table) && fresh(server.registry)
    && (forall i :: 0 <= i < |server.core.doc.table.spine| ==> fresh(server.core.doc.table.spine[i]))
    && (forall i :: 0 <= i < |server.registry.spine| ==> fresh(server.registry.spine[i]))
    && (forall i :: 0 <= i < |server.registry.outs| ==> fresh(server.registry.outs[i]))
  }

  /** The stream of a client that was refused: nothing more is ever written to it. */
  ghost predicate TurnedAway(server: Server, out: OutStream?)
    reads server.registry, out
  {
    out != null && out !in server.registry.outs && out.text == "Reject UNAUTHORISED\n"
  }

  /** The stream that a process got when it joined is registered and determines role, version and text. */
  ghost predicate Sees(server: Server, events: seq<Event>, streams: seq<OutStream?>, pid: int)
    requires Find(Run(events).clients, pid).Some?
    reads server.core, server.core.doc, server.registry, streams
  {
    var m, client := JoinedAt(events, pid), Find(Run(events).clients, pid).value;
    && m < |streams| && streams[m] != null && streams[m] in server.registry.outs
    && ClientView(streams[m].text) == Some((client.role, server.core.currentVersion, server.core.doc.committed))
  }

  lemma ClientSees(server: Server, events: seq<Event>, streams: seq<OutStream?>, pid: int)
    requires server.Ok() && server.State() == Run(events) && StreamsFrom(server.registry.spine, events, streams)
    requires AllPossible(events) && Find(Run(events).clients, pid).Some?
    ensures Sees(server, events, streams, pid)
  {
    var clients, registry := Run(events).clients, server.registry;
    ClientsConverge(events, pid);
    FindIsMember(clients, pid);
    var i :| 0 <= i < |clients| && clients[i] == Find(clients, pid).value;
    assert registry.spine[i].pid == pid && registry.outs[i] == registry.spine[i].out;
    assert HasStream(registry.spine[i], events, streams);
  }

  lemma RunNext(events: seq<Event>, i: nat)
    requires i < |events|
    ensures events[..i + 1] == events[..i] + [events[i]]
    ensures Run(events[..i + 1]) == Protocol.Step(Run(events[..i]), events[i])
  {
    assert events[..i + 1][..i] == events[..i];
  }

  lemma DistinctProcesses(server: Server)
    requires server.Ok()
    ensures Distinct(PidsOf(server.registry.spine))
  {
  }

  lemma StartOfRun(events: seq<Event>, server: Server)
    requires server.Ok() && server.State() == START && server.registry.spine == []
    ensures server.State() == Run(events[..0]) && StreamsFrom(server.registry.spine, events[..0], [])
  {
  }

  /** Every run of the server objects is a run of the state machine. A client that was refused gets nothing
      more. */
  method ServeAll(events: seq<Event>) returns (server: Server, streams: seq<OutStream?>)
    ensures server.Ok() && server.State() == Run(events) && AllFresh(server)
    ensures StreamsFrom(server.registry.spine, events, streams)
    ensures |streams| == |events|
    ensures forall k :: 0 <= k < |events| && events[k].Join? && events[k].auth.None? ==> TurnedAway(server, streams[k])
  {
    hide ServerCore.Ok, ServerCore.State, ClientRegistry.Ok, ClientRegistry.Clients, OpTable.Ok, OpTable.Queue;
    hide Run, Protocol.Step, IsJoin, HasStream, NodesAfter, PidsOf;
    server := new Server();
    streams := [];
    var i := 0;
    StartOfRun(events, server);
    while i < |events|
      invariant i <= |events| && |streams| == i
      invariant server.Ok() && server.State() == Run(events[..i])
      invariant AllFresh(server)
      invariant StreamsFrom(server.registry.spine, events[..i], streams)
      invariant forall k :: 0 <= k < i && events[k].Join? && events[k].auth.None? ==> TurnedAway(server, streams[k])
    {
      RunNext(events, i);
      ghost var before := server.registry.spine;
      var out := Handle(server, events[i]);
      DistinctProcesses(server);
      StreamsStillFrom(before, events[..i], streams, events[i], out, server.registry.spine);
      streams := streams + [out];
      i := i + 1;
    }
    assert events[..i] == events;
  }

  /** In every run the stream of every client that is still connected tells it the version and the text of the
      document. */
  method Serve(events: seq<Event>) returns (server: Server, streams: seq<OutStream?>)
    ensures server.Ok() && server.State() == Run(events) && AllFresh(server)
    ensures AllPossible(events) ==>
              forall pid :: Find(Run(events).clients, pid).Some? ==> Sees(server, events, streams, pid)
  {
    server, streams := ServeAll(events);
    forall pid | AllPossible(events) && Find(Run(events).clients, pid).Some?
      ensures Sees(server, events, streams, pid)
    {
      ClientSees(server, events, streams, pid);
    }
  }
}
