/** The server as a state machine: what the shared state becomes when a thread runs one of its critical
    sections, for any interleaving of any number of clients. */
module Protocol {
  import opened Wrappers
  import opened Text
  import opened Engine
  import opened Commands
  import opened Payloads
  import opened Cores

  /** A registered client and everything that has been written to it. */
  datatype Client = Client(pid: int, user: string, role: Role, stream: string)

  /** The shared state; the registry lists the latest client first. */
  datatype System = System(core: Core, clients: seq<Client>)

  /** A handshake with the answer of the role lookup, a line that arrives, or the end of a client's input. */
  datatype Event = Join(pid: int, user: string, auth: Option<Role>) | Receive(pid: int, line: string) | Hangup(pid: int)

  const READ_BUFFER_SIZE: nat := 512

  /** What the surroundings guarantee: the role file knows only names that are single words, and a line that
      is read ends with its newline, if it has one, and fits the read buffer. */
  predicate Possible(e: Event) {
    match e
    case Join(_, user, auth) => auth.Some? ==> ' ' !in user && '\n' !in user
    case Receive(_, line) => 0 < |line| < READ_BUFFER_SIZE && '\n' !in line[..|line| - 1]
    case Hangup(_) => true
  }

  predicate AllPossible(events: seq<Event>) {
    forall i :: 0 <= i < |events| ==> Possible(events[i])
  }

  // ----- the registry

  function Find(clients: seq<Client>, pid: int): Option<Client> {
    if |clients| == 0 then None
    else if clients[0].pid == pid then Some(clients[0])
    else Find(clients[1..], pid)
  }

  function Remove(clients: seq<Client>, pid: int): seq<Client> {
    if |clients| == 0 then []
    else if clients[0].pid == pid then clients[1..]
    else [clients[0]] + Remove(clients[1..], pid)
  }

  function Broadcast(clients: seq<Client>, payload: string): (r: seq<Client>)
    ensures |r| == |clients|
  {
    seq(|clients|, (i: nat) requires i < |clients| => clients[i].(stream := clients[i].stream + payload))
  }

  // ----- critical sections

  function RoleName(role: Role): string {
    if role == WriteRole then "write" else "read"
  }

  /** What a joining client is sent: its role, the version, the length of the document and the document. */
  function Snapshot(role: Role, version: Version, text: string): string {
    RoleName(role) + "\n" + (Decimal(version) + "\n" + (Decimal(|text|) + "\n" + text))
  }

  predicate IsFarewell(line: string) {
    line == "DISCONNECT\n" || line == "QUIT\n"
  }

  /** A command line of a registered client is submitted and committed in one critical section. */
  predicate IsCommand(s: System, e: Event) {
    e.Receive? && !IsFarewell(e.line) && Find(s.clients, e.pid).Some?
  }

  predicate IsLeave(e: Event) {
    e.Hangup? || (e.Receive? && IsFarewell(e.line))
  }

  predicate IsJoin(s: System, e: Event) {
    e.Join? && e.auth.Some? && Find(s.clients, e.pid).None?
  }

  function CommandCommit(s: System, e: Event): (Payload, Core)
    requires IsCommand(s, e)
  {
    var client := Find(s.clients, e.pid).value;
    Publish(Submit(s.core, client.user, client.role, e.line).1)
  }

  function Step(s: System, e: Event): System {
    if IsJoin(s, e) then
      var text := Snapshot(e.auth.value, s.core.version, s.core.doc.committed);
      s.(clients := [Client(e.pid, e.user, e.auth.value, text)] + s.clients)
    else if IsCommand(s, e) then
      var (payload, core) := CommandCommit(s, e);
      System(core, Broadcast(s.clients, Print(payload)))
    else if IsLeave(e) then s.(clients := Remove(s.clients, e.pid))
    else s
  }

  const START: System := System(INITIAL, [])

  function Run(events: seq<Event>): System {
    if |events| == 0 then START else Step(Run(events[..|events| - 1]), events[|events| - 1])
  }

  /** The payloads of all commits of a run, in commit order. */
  function Commits(events: seq<Event>): seq<Payload> {
    if |events| == 0 then []
    else
      var before, e := Run(events[..|events| - 1]), events[|events| - 1];
      Commits(events[..|events| - 1]) + (if IsCommand(before, e) then [CommandCommit(before, e).0] else [])
  }

  /** The index of the event by which a connected client joined. */
  function JoinedAt(events: seq<Event>, pid: int): nat {
    if |events| == 0 then 0
    else
      var before, e := Run(events[..|events| - 1]), events[|events| - 1];
      if IsJoin(before, e) && e.pid == pid then |events| - 1 else JoinedAt(events[..|events| - 1], pid)
  }

  // ----- the invariant

  predicate GoodClients(clients: seq<Client>) {
    && (forall i :: 0 <= i < |clients| ==> ' ' !in clients[i].user && '\n' !in clients[i].user)
    && (forall i, j :: 0 <= i < j < |clients| ==> clients[i].pid != clients[j].pid)
  }

  /** Between critical sections everything is committed, and every process is registered at most once. */
  predicate Good(s: System) {
    Consistent(s.core) && s.core.log == [] && GoodClients(s.clients)
  }

  lemma {:induction false} FindIsMember(clients: seq<Client>, pid: int)
    ensures Find(clients, pid).Some? ==> Find(clients, pid).value in clients && Find(clients, pid).value.pid == pid
    ensures Find(clients, pid).None? <==> forall i :: 0 <= i < |clients| ==> clients[i].pid != pid
  {
    if |clients| == 0 || clients[0].pid == pid {
    } else {
      FindIsMember(clients[1..], pid);
      assert forall i :: 1 <= i < |clients| ==> clients[i] == clients[1..][i - 1];
    }
  }

  lemma {:induction false} RemoveKeepsMembers(clients: seq<Client>, pid: int)
    ensures forall c :: c in Remove(clients, pid) ==> c in clients
  {
    if |clients| == 0 || clients[0].pid == pid {
    } else {
      RemoveKeepsMembers(clients[1..], pid);
    }
  }

  lemma GoodTail(clients: seq<Client>)
    requires GoodClients(clients) && |clients| > 0
    ensures GoodClients(clients[1..])
    ensures forall c :: c in clients[1..] ==> c.pid != clients[0].pid
  {
  }

  lemma GoodCons(c: Client, clients: seq<Client>)
    requires GoodClients(clients) && ' ' !in c.user && '\n' !in c.user
    requires forall x :: x in clients ==> x.pid != c.pid
    ensures GoodClients([c] + clients)
  {
  }

  lemma {:induction false} RemoveKeepsGood(clients: seq<Client>, pid: int)
    requires GoodClients(clients)
    ensures GoodClients(Remove(clients, pid))
  {
    if |clients| == 0 {
    } else {
      GoodTail(clients);
      if clients[0].pid != pid {
        RemoveKeepsGood(clients[1..], pid);
        RemoveKeepsMembers(clients[1..], pid);
        GoodCons(clients[0], Remove(clients[1..], pid));
      }
    }
  }

  lemma {:induction false} RemoveKeepsOthers(clients: seq<Client>, pid: int, other: int)
    requires GoodClients(clients)
    ensures Find(Remove(clients, pid), other) == if other == pid then None else Find(clients, other)
  {
    if |clients| == 0 {
    } else {
      GoodTail(clients);
      if clients[0].pid == pid {
        FindIsMember(clients[1..], pid);
      } else {
        RemoveKeepsOthers(clients[1..], pid, other);
        assert Remove(clients, pid)[1..] == Remove(clients[1..], pid);
      }
    }
  }

  lemma {:induction false} BroadcastReachesAll(clients: seq<Client>, payload: string, pid: int)
    ensures Find(Broadcast(clients, payload), pid) ==
            match Find(clients, pid) { case None => None case Some(c) => Some(c.(stream := c.stream + payload)) }
  {
    if |clients| == 0 {
    } else {
      BroadcastReachesAll(clients[1..], payload, pid);
      assert Broadcast(clients, payload)[1..] == Broadcast(clients[1..], payload);
    }
  }

  lemma CommandCommitIsClean(s: System, e: Event)
    requires Good(s) && Possible(e) && IsCommand(s, e)
    ensures var (payload, core) := CommandCommit(s, e);
            && Clean(payload.entries) && |payload.entries| == 1
            && Consistent(core) && core.log == []
            && payload.version == core.version == NextVersion(s.core.version)
            && core.doc.committed == ReplayText(s.core.doc.committed, payload.entries)
  {
    var client := Find(s.clients, e.pid).value;
    FindIsMember(s.clients, e.pid);
    SubmitKeepsConsistent(s.core, client.user, client.role, e.line);
    var logged := Submit(s.core, client.user, client.role, e.line).1;
    PublishKeepsConsistent(logged);
    ReplayIsFaithful(logged);
    assert logged.log == [LogEntry(client.user, e.line, Submit(s.core, client.user, client.role, e.line).0)];
    assert '\n' !in WithoutTrailingNewline(e.line) by {
      assert e.line == e.line[..|e.line| - 1] + [e.line[|e.line| - 1]];
    }
  }

  lemma StepKeepsGood(s: System, e: Event)
    requires Good(s) && Possible(e)
    ensures Good(Step(s, e))
  {
    if IsJoin(s, e) {
      FindIsMember(s.clients, e.pid);
    } else if IsCommand(s, e) {
      CommandCommitIsClean(s, e);
    } else if IsLeave(e) {
      RemoveKeepsGood(s.clients, e.pid);
    }
  }

  lemma {:induction false} RunIsGood(events: seq<Event>)
    requires AllPossible(events)
    ensures Good(Run(events))
  {
    if |events| == 0 {
      InitialIsConsistent();
    } else {
      RunIsGood(events[..|events| - 1]);
      StepKeepsGood(Run(events[..|events| - 1]), events[|events| - 1]);
    }
  }

  // ----- what clients receive

  function PrintAll(ps: seq<Payload>): string {
    Concat(seq(|ps|, (i: nat) requires i < |ps| => Print(ps[i])))
  }

  lemma PrintAllSnoc(ps: seq<Payload>, p: Payload)
    ensures PrintAll(ps + [p]) == PrintAll(ps) + Print(p)
  {
    var pieces := seq(|ps|, (i: nat) requires i < |ps| => Print(ps[i]));
    var all := ps + [p];
    assert seq(|all|, (i: nat) requires i < |all| => Print(all[i])) == pieces + [Print(p)];
    ConcatSnoc(pieces, Print(p));
  }

  lemma PrintAllCons(p: Payload, ps: seq<Payload>)
    ensures PrintAll([p] + ps) == Print(p) + PrintAll(ps)
  {
    var pieces := seq(|ps|, (i: nat) requires i < |ps| => Print(ps[i]));
    var all := [p] + ps;
    assert seq(|all|, (i: nat) requires i < |all| => Print(all[i])) == [Print(p)] + pieces;
    ConcatCons(Print(p), pieces);
  }

  /** How a step changes what a client that stays connected has received. */
  lemma StepForClient(s: System, e: Event, pid: int)
    requires Good(s) && Possible(e) && Find(Step(s, e).clients, pid).Some?
    requires !(IsJoin(s, e) && e.pid == pid)
    ensures Find(s.clients, pid).Some?
    ensures var before := Find(s.clients, pid).value;
            Find(Step(s, e).clients, pid) ==
            Some(if IsCommand(s, e) then before.(stream := before.stream + Print(CommandCommit(s, e).0)) else before)
  {
    if IsJoin(s, e) {
      var c := Step(s, e).clients[0];
      assert Step(s, e).clients == [c] + s.clients;
      assert Step(s, e).clients[1..] == s.clients;
    } else if IsCommand(s, e) {
      BroadcastReachesAll(s.clients, Print(CommandCommit(s, e).0), pid);
    } else if IsLeave(e) {
      RemoveKeepsOthers(s.clients, e.pid, pid);
    }
  }

  lemma JoinForClient(s: System, e: Event)
    requires IsJoin(s, e)
    ensures Find(Step(s, e).clients, e.pid) ==
            Some(Client(e.pid, e.user, e.auth.value, Snapshot(e.auth.value, s.core.version, s.core.doc.committed)))
  {
  }

  lemma {:induction false} CommitsGrow(events: seq<Event>, m: nat)
    requires m <= |events|
    ensures Commits(events[..m]) <= Commits(events)
    decreases |events|
  {
    if m == |events| {
      assert events[..m] == events;
    } else {
      assert events[..|events| - 1][..m] == events[..m];
      CommitsGrow(events[..|events| - 1], m);
    }
  }

  /** Gap-free streams: in every interleaving a connected client has received the snapshot of the moment it
      joined and, after it, the payload of every later commit, in commit order and each once. */
  lemma {:induction false} StreamsAreGapFree(events: seq<Event>, pid: int)
    requires AllPossible(events) && Find(Run(events).clients, pid).Some?
    ensures var m := JoinedAt(events, pid);
            var client := Find(Run(events).clients, pid).value;
            && m < |events| && IsJoin(Run(events[..m]), events[m]) && events[m].pid == pid
            && client.user == events[m].user && client.role == events[m].auth.value
            && Commits(events[..m]) <= Commits(events)
            && client.stream == Snapshot(client.role, Run(events[..m]).core.version,
                                         Run(events[..m]).core.doc.committed)
                                + PrintAll(Commits(events)[|Commits(events[..m])|..])
    decreases |events|
  {
    hide Snapshot, PrintAll, CommandCommit, Broadcast, Remove;
    var init, e := events[..|events| - 1], events[|events| - 1];
    var m := JoinedAt(events, pid);
    RunIsGood(init);
    if IsJoin(Run(init), e) && e.pid == pid {
      JoinForClient(Run(init), e);
      assert events[..m] == init;
      assert Commits(events) == Commits(init);
      NothingReceived(Find(Run(events).clients, pid).value.stream, Commits(events));
    } else {
      StepForClient(Run(init), e, pid);
      StreamsAreGapFree(init, pid);
      assert init[..m] == events[..m];
      CommitsGrow(events, m);
      var more := if IsCommand(Run(init), e) then [CommandCommit(Run(init), e).0] else [];
      StreamGrows(Snapshot(events[m].auth.value, Run(events[..m]).core.version, Run(events[..m]).core.doc.committed),
                  Commits(init), |Commits(events[..m])|, more);
    }
  }

  lemma NothingReceived(stream: string, ps: seq<Payload>)
    ensures stream + PrintAll(ps[|ps|..]) == stream
  {
  }

  lemma StreamGrows(start: string, ps: seq<Payload>, n: nat, more: seq<Payload>)
    requires n <= |ps| && |more| <= 1
    ensures start + PrintAll((ps + more)[n..]) ==
            start + PrintAll(ps[n..]) + (if |more| == 1 then Print(more[0]) else "")
  {
    assert (ps + more)[n..] == ps[n..] + more;
    if |more| == 1 {
      assert more == [more[0]];
      PrintAllSnoc(ps[n..], more[0]);
      Assoc(start, PrintAll(ps[n..]), Print(more[0]));
    } else {
      assert ps[n..] + more == ps[n..];
    }
  }

  /** The version n commits after version v. */
  function Advance(v: Version, n: nat): Version {
    if n == 0 then v else NextVersion(Advance(v, n - 1))
  }

  lemma {:induction false} AdvanceAdds(v: Version, n: nat, k: nat)
    ensures Advance(Advance(v, n), k) == Advance(v, n + k)
    decreases k
  {
    if k == 0 {
    } else {
      AdvanceAdds(v, n, k - 1);
    }
  }

  lemma SuccessorModulo(x: nat)
    ensures (x % VERSION_MODULUS + 1) % VERSION_MODULUS == (x + 1) % VERSION_MODULUS
  {
    var q, r := x / VERSION_MODULUS, x % VERSION_MODULUS;
    assert x + 1 == q * VERSION_MODULUS + (r + 1);
    if r + 1 == VERSION_MODULUS {
      assert x + 1 == (q + 1) * VERSION_MODULUS;
    }
  }

  lemma {:induction false} AdvanceIsModularSum(v: Version, n: nat)
    ensures Advance(v, n) == (v + n) % VERSION_MODULUS
  {
    if n == 0 {
    } else {
      AdvanceIsModularSum(v, n - 1);
      SuccessorModulo(v + n - 1);
    }
  }

  predicate Numbered(ps: seq<Payload>) {
    forall k :: 0 <= k < |ps| ==> ps[k].version == Advance(0, k + 1)
  }

  lemma NumberedSnoc(ps: seq<Payload>, p: Payload)
    requires Numbered(ps) && p.version == NextVersion(Advance(0, |ps|))
    ensures Numbered(ps + [p]) && p.version == Advance(0, |ps + [p]|)
  {
  }

  /** Commits are numbered consecutively from 1, modulo 2^64, and the server is at the last number. */
  lemma {:induction false} CommitsAreNumbered(events: seq<Event>)
    requires AllPossible(events)
    ensures Numbered(Commits(events))
    ensures Run(events).core.version == Advance(0, |Commits(events)|)
    decreases |events|
  {
    if |events| == 0 {
    } else {
      var init, e := events[..|events| - 1], events[|events| - 1];
      CommitsAreNumbered(init);
      RunIsGood(init);
      if IsCommand(Run(init), e) {
        CommandCommitIsClean(Run(init), e);
        NumberedSnoc(Commits(init), CommandCommit(Run(init), e).0);
      }
    }
  }

  /** A client that joined at version v then receives the versions v + 1, v + 2, ... */
  lemma ReceivedVersionsAreConsecutive(events: seq<Event>, pid: int, k: nat)
    requires AllPossible(events) && Find(Run(events).clients, pid).Some?
    ensures JoinedAt(events, pid) < |events|
    ensures Commits(events[..JoinedAt(events, pid)]) <= Commits(events)
    ensures var m := JoinedAt(events, pid);
            var received := Commits(events)[|Commits(events[..m])|..];
            k < |received| ==> received[k].version == Advance(Run(events[..m]).core.version, k + 1)
  {
    var m := JoinedAt(events, pid);
    StreamsAreGapFree(events, pid);
    CommitsAreNumbered(events);
    CommitsAreNumbered(events[..m]);
    NumberedFrom(Commits(events), |Commits(events[..m])|, k);
  }

  lemma NumberedFrom(ps: seq<Payload>, n: nat, k: nat)
    requires Numbered(ps) && n <= |ps|
    ensures k < |ps[n..]| ==> ps[n..][k].version == Advance(Advance(0, n), k + 1)
  {
    AdvanceAdds(0, n, k + 1);
  }

  // ----- convergence

  /** Following all commits since any moment leads to the present document. */
  lemma {:induction false} FollowingCommitsCatchesUp(events: seq<Event>, m: nat)
    requires AllPossible(events) && m <= |events|
    ensures Commits(events[..m]) <= Commits(events)
    ensures Follow(Run(events[..m]).core.version, Run(events[..m]).core.doc.committed,
                   Commits(events)[|Commits(events[..m])|..]) ==
            (Run(events).core.version, Run(events).core.doc.committed)
    decreases |events|
  {
    CommitsGrow(events, m);
    var past := Run(events[..m]).core;
    var n := |Commits(events[..m])|;
    if m == |events| {
      assert events[..m] == events;
      assert Commits(events)[n..] == [];
    } else {
      var init, e := events[..|events| - 1], events[|events| - 1];
      assert init[..m] == events[..m];
      FollowingCommitsCatchesUp(init, m);
      RunIsGood(init);
      if IsCommand(Run(init), e) {
        var p := CommandCommit(Run(init), e).0;
        CommandCommitIsClean(Run(init), e);
        assert Commits(events)[n..] == Commits(init)[n..] + [p];
        FollowSnoc(past.version, past.doc.committed, Commits(init)[n..], p);
      } else {
        assert Commits(events) == Commits(init);
      }
    }
  }

  /** Reads a snapshot off the front of a stream. */
  function ReadSnapshot(s: string): Option<(Role, Version, string, string)> {
    match NextLine(s)
    case None => None
    case Some((role, s1)) =>
      if role != "write" && role != "read" then None
      else
        match NextLine(s1)
        case None => None
        case Some((version, s2)) =>
          match NextLine(s2)
          case None => None
          case Some((length, s3)) =>
            match (ReadNumber(version), ReadNumber(length))
            case (Some(v), Some(n)) =>
              if v < VERSION_MODULUS && n <= |s3| then
                Some((if role == "write" then WriteRole else ReadRole, v, s3[..n], s3[n..]))
              else None
            case _ => None
  }

  /** Reads payloads to the end of a stream. */
  function ReadAll(s: string): Option<seq<Payload>>
    decreases |s|
  {
    if s == "" then Some([])
    else
      match Read(s)
      case None => None
      case Some((p, rest)) =>
        match ReadAll(rest)
        case None => None
        case Some(ps) => Some([p] + ps)
  }

  /** What a client can work out from its stream alone: its role, the version and the document. */
  function ClientView(stream: string): Option<(Role, Version, string)> {
    match ReadSnapshot(stream)
    case None => None
    case Some((role, version, text, rest)) =>
      match ReadAll(rest)
      case None => None
      case Some(ps) => var (v, t) := Follow(version, text, ps); Some((role, v, t))
  }

  lemma ReadNumberOf(n: nat)
    ensures ReadNumber(Decimal(n)) == Some(n) && '\n' !in Decimal(n)
  {
    DecimalRoundTrip(n);
  }

  lemma SnapshotRoundTrip(role: Role, version: Version, text: string, rest: string)
    ensures ReadSnapshot(Snapshot(role, version, text) + rest) == Some((role, version, text, rest))
  {
    hide NextLine, ReadNumber, Decimal, Snapshot;
    var s3 := text + rest;
    var s2 := Decimal(|text|) + "\n" + s3;
    var s1 := Decimal(version) + "\n" + s2;
    SnapshotThen(role, version, text, rest);
    ReadNumberOf(version);
    ReadNumberOf(|text|);
    NextLineOf(RoleName(role), s1);
    NextLineOf(Decimal(version), s2);
    NextLineOf(Decimal(|text|), s3);
    assert s3[..|text|] == text && s3[|text|..] == rest;
  }

  lemma SnapshotThen(role: Role, version: Version, text: string, rest: string)
    ensures Snapshot(role, version, text) + rest ==
            RoleName(role) + "\n" + (Decimal(version) + "\n" + (Decimal(|text|) + "\n" + (text + rest)))
  {
    Assoc(Decimal(|text|) + "\n", text, rest);
    Assoc(Decimal(version) + "\n", Decimal(|text|) + "\n" + text, rest);
    Assoc(RoleName(role) + "\n", Decimal(version) + "\n" + (Decimal(|text|) + "\n" + text), rest);
  }

  predicate AllClean(ps: seq<Payload>) {
    forall i :: 0 <= i < |ps| ==> Clean(ps[i].entries)
  }

  lemma {:induction false} ReadAllOf(ps: seq<Payload>)
    requires AllClean(ps)
    ensures ReadAll(PrintAll(ps)) == Some(ps)
    decreases |ps|
  {
    if |ps| == 0 {
    } else {
      SplitFirst(ps);
      PrintAllCons(ps[0], ps[1..]);
      PayloadRoundTrip(ps[0], PrintAll(ps[1..]));
      ReadAllOf(ps[1..]);
    }
  }

  lemma {:induction false} CommitsAreClean(events: seq<Event>)
    requires AllPossible(events)
    ensures AllClean(Commits(events))
    decreases |events|
  {
    if |events| == 0 {
    } else {
      var init, e := events[..|events| - 1], events[|events| - 1];
      CommitsAreClean(init);
      RunIsGood(init);
      if IsCommand(Run(init), e) {
        CommandCommitIsClean(Run(init), e);
      }
    }
  }

  /** Convergence: in every interleaving, whoever is connected can work out the version and the whole text of
      the server's document from nothing but the characters it was sent. */
  lemma ClientsConverge(events: seq<Event>, pid: int)
    requires AllPossible(events) && Find(Run(events).clients, pid).Some?
    ensures var client := Find(Run(events).clients, pid).value;
            ClientView(client.stream) == Some((client.role, Run(events).core.version, Run(events).core.doc.committed))
  {
    var client := Find(Run(events).clients, pid).value;
    var m := JoinedAt(events, pid);
    StreamsAreGapFree(events, pid);
    var past := Run(events[..m]).core;
    var received := Commits(events)[|Commits(events[..m])|..];
    CommitsAreClean(events);
    ReadAllOf(received);
    SnapshotRoundTrip(client.role, past.version, past.doc.committed, PrintAll(received));
    FollowingCommitsCatchesUp(events, m);
  }
}
