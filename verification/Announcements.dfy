/** What a command does on the server: to the committed text, to the log that is published, and to the streams. */
module Announcements {
  import opened Wrappers
  import opened Text
  import opened Ops
  import opened Engine
  import opened Commands
  import opened Payloads
  import Cores
  import opened LineMeanings
  import opened Protocol
  import Renumbering

  // ----- the document

  /** A command of a registered client is submitted under its name and role, and what it leaves pending is
      renumbered and committed as the next version. */
  lemma CommandIsCommitted(s: System, pid: int, line: string)
    requires Good(s) && Find(s.clients, pid).Some? && line != "DISCONNECT\n" && line != "QUIT\n"
    ensures var client := Find(s.clients, pid).value;
            var pending := Cores.Submit(s.core, client.user, client.role, line).1.doc;
            var after := Step(s, Receive(pid, line)).core;
            && after.doc == Doc(Renumbering.Renumber(Working(pending)), [], NextVersion(s.core.version))
            && after.version == NextVersion(s.core.version) && after.log == []
  {
    var client := Find(s.clients, pid).value;
    Cores.SubmitKeepsConsistent(s.core, client.user, client.role, line);
    Cores.SubmitLogs(s.core, client.user, client.role, line);
  }

  lemma NothingPending(s: System)
    requires Good(s)
    ensures s.core.doc.ops == [] && Working(s.core.doc) == s.core.doc.committed
    ensures Renumbering.Renumber(s.core.doc.committed) == s.core.doc.committed && s.core.version == s.core.doc.version
    ensures forall p: nat :: Transform(s.core.doc.ops, p) == Some(p)
  {
    Cores.EmptyLogMeansNothingPending(s.core);
  }

  /** A canonical line from a registered client: a writer's command that the document accepts commits its
      renumbered effect on the committed text; any other leaves the committed text as it was. */
  lemma CanonicalLineCommits(s: System, pid: int, c: Command, line: string)
    requires Good(s) && Find(s.clients, pid).Some? && Writable(c) && |line| <= 256
    requires line == Canonical(c) || line == Canonical(c) + "\n"
    ensures var client, text := Find(s.clients, pid).value, s.core.doc.committed;
            var accepted := client.role == WriteRole && Accepts(s.core.doc, s.core.version, c);
            var start, end := if IsRange(c) then c.start else 0, if IsRange(c) then c.end else 0;
            && (accepted ==> start <= end && (IsRange(c) ==> end <= |text|) && (!IsRange(c) ==> c.pos <= |text|))
            && Step(s, Receive(pid, line)).core.doc.committed ==
               if accepted then Renumbering.Renumber(Effect(text, start, end, c)) else text
  {
    hide Writable, Canonical, Effect, Execute, Transform, Step, Cores.Submit, Find, Good;
    var client := Find(s.clients, pid).value;
    CanonicalIsNoFarewell(c, line);
    NothingPending(s);
    GoodCore(s);
    CommandIsCommitted(s, pid, line);
    CanonicalLineSubmitted(s.core, client.user, client.role, c, line);
  }

  lemma GoodCore(s: System)
    requires Good(s)
    ensures Cores.Consistent(s.core)
  {
  }

  lemma CanonicalIsNoFarewell(c: Command, line: string)
    requires line == Canonical(c) || line == Canonical(c) + "\n"
    ensures line != "DISCONNECT\n" && line != "QUIT\n"
  {
    hide VerbName, VerbFor, Arguments;
    assert line[|VerbName(VerbFor(c))|] == ' ';
    assert ' ' in line && ' ' !in "DISCONNECT\n" && ' ' !in "QUIT\n";
  }

  // ----- the log

  /** The payload of a command has exactly one entry: the user under which the process joined, the line without
      the newline that may end it, and the result of submitting it under the role of that join. */
  lemma CommandIsAttributed(events: seq<Event>, pid: int, line: string)
    requires AllPossible(events) && Find(Run(events).clients, pid).Some?
    requires line != "DISCONNECT\n" && line != "QUIT\n"
    ensures var m := JoinedAt(events, pid);
            && m < |events| && events[m].Join? && events[m].pid == pid && events[m].auth.Some?
            && IsCommand(Run(events), Receive(pid, line))
            && var entries := CommandCommit(Run(events), Receive(pid, line)).0.entries;
            && |entries| == 1 && entries[0].user == events[m].user
            && (line == entries[0].command + "\n" ||
                (line == entries[0].command && !(|line| > 0 && line[|line| - 1] == '\n')))
            && entries[0].result == Cores.Submit(Run(events).core, events[m].user, events[m].auth.value, line).0
  {
    var m, client := JoinedAt(events, pid), Find(Run(events).clients, pid).value;
    StreamsAreGapFree(events, pid);
    RunIsGood(events);
    Cores.SubmitLogs(Run(events).core, client.user, client.role, line);
  }

  // ----- the streams

  lemma OneEntryPrinted(version: Version, e: Entry)
    ensures Print(Payload(version, [e])) ==
            "VERSION " + Decimal(version) + "\n"
            + ("EDIT " + e.user + " " + e.command + " " + ResultName(e.result) + "\n" + "END\n")
  {
    hide Decimal, ResultName;
    PrintEntriesCons(e, []);
    assert [e] + [] == [e] && PrintEntries([]) == "";
    EntryLineFlat(e.user, e.command, ResultName(e.result));
    Assoc(PrintHead(version), PrintEntry(e), "END\n");
  }

  lemma EntryLineFlat(user: string, command: string, name: string)
    ensures "EDIT " + (user + " " + (command + (" " + name))) == "EDIT " + user + " " + command + " " + name
  {
    Assoc("EDIT " + user + " ", command, " " + name);
    Assoc("EDIT ", user + " ", command + (" " + name));
    Assoc("EDIT ", user, " ");
    Assoc("EDIT " + user + " " + command, " ", name);
  }

  /** What a command sends to every registered client: the next version, the sender with the line and the result
      in words, and the end. */
  lemma CommandIsAnnounced(s: System, pid: int, line: string, command: string, i: nat)
    requires Good(s) && Find(s.clients, pid).Some? && line != "DISCONNECT\n" && line != "QUIT\n"
    requires line == command + "\n" || (line == command && !(|line| > 0 && line[|line| - 1] == '\n'))
    requires i < |s.clients|
    ensures var sender := Find(s.clients, pid).value;
            var result := Cores.Submit(s.core, sender.user, sender.role, line).0;
            var clients := Step(s, Receive(pid, line)).clients;
            && |clients| == |s.clients|
            && clients[i] == s.clients[i].(stream := s.clients[i].stream +
                 ("VERSION " + Decimal(NextVersion(s.core.version)) + "\n"
                  + ("EDIT " + sender.user + " " + command + " " + ResultName(result) + "\n" + "END\n")))
  {
    var sender := Find(s.clients, pid).value;
    var (result, logged) := Cores.Submit(s.core, sender.user, sender.role, line);
    var e := Entry(sender.user, command, result);
    Cores.SubmitKeepsConsistent(s.core, sender.user, sender.role, line);
    Cores.SubmitLogs(s.core, sender.user, sender.role, line);
    SameCommand(line, logged.log[0].command, command);
    assert logged.log == [e];
    OneEntryPrinted(NextVersion(s.core.version), e);
  }

  lemma SameCommand(line: string, a: string, b: string)
    requires line == a + "\n" || (line == a && !(|line| > 0 && line[|line| - 1] == '\n'))
    requires line == b + "\n" || (line == b && !(|line| > 0 && line[|line| - 1] == '\n'))
    ensures a == b
  {
    if line == a + "\n" && line == b + "\n" {
      assert a == line[..|line| - 1] == b;
    }
  }

  /** The words for the six results. */
  lemma ResultsInWords()
    ensures ResultName(CmdSuccess) == "SUCCESS"
    ensures ResultName(RejectUnauthorised) == "Reject UNAUTHORISED"
    ensures ResultName(RejectInvalidPosition) == "Reject INVALID_POSITION"
    ensures ResultName(RejectDeletedPosition) == "Reject DELETED_POSITION"
    ensures ResultName(RejectOutdatedVersion) == "Reject OUTDATED_VERSION"
    ensures ResultName(RejectInvalidCommand) == "Reject INVALID_COMMAND"
  {
  }

  /** The events that a run is made of: whatever a buffer of 512 bytes can take of a stream of lines, any end of
      input, and any join except one whose known user is not a single word. */
  lemma EventsThatArrive(pid: int, line: string, user: string, auth: Option<Role>)
    ensures Possible(Receive(pid, line)) <==>
            1 <= |line| <= 511 && forall i :: 0 <= i < |line| - 1 ==> line[i] != '\n'
    ensures Possible(Hangup(pid))
    ensures Possible(Join(pid, user, auth)) <==> auth.None? || (' ' !in user && '\n' !in user)
  {
    forall i | 0 <= i < |line| - 1
      ensures line[..|line| - 1][i] == line[i]
    {
    }
  }

  /** A client that joins finds its role, the version, the length of the text and the text on its stream. */
  lemma JoinIsGreeted(s: System, pid: int, user: string, role: Role)
    requires Find(s.clients, pid).None?
    ensures var after, text := Step(s, Join(pid, user, Some(role))), s.core.doc.committed;
            && after.core == s.core && |after.clients| == |s.clients| + 1 && after.clients[1..] == s.clients
            && after.clients[0] == Client(pid, user, role,
                 (match role { case WriteRole => "write" case ReadRole => "read" }) + "\n"
                 + Decimal(s.core.version) + "\n" + Decimal(|text|) + "\n" + text)
  {
    var text := s.core.doc.committed;
    var a, b, c := RoleName(role) + "\n", Decimal(s.core.version) + "\n", Decimal(|text|) + "\n";
    Assoc(a, b, c + text);
    Assoc(a + b, c, text);
    Assoc(a, Decimal(s.core.version), "\n");
    Assoc(a + b, Decimal(|text|), "\n");
  }

  /** The two farewells and the end of its input unregister a client and nobody else; nothing else that a client
      sends does. */
  lemma Farewells(s: System, pid: int, other: int)
    requires Good(s)
    ensures forall line :: line == "DISCONNECT\n" || line == "QUIT\n" ==>
              && Find(Step(s, Receive(pid, line)).clients, other) ==
                 (if other == pid then None else Find(s.clients, other))
              && Step(s, Receive(pid, line)).core == s.core
    ensures && Find(Step(s, Hangup(pid)).clients, other) == (if other == pid then None else Find(s.clients, other))
            && Step(s, Hangup(pid)).core == s.core
    ensures forall line :: line != "DISCONNECT\n" && line != "QUIT\n" ==>
              (Find(Step(s, Receive(pid, line)).clients, other).Some? <==> Find(s.clients, other).Some?)
  {
    RemoveKeepsOthers(s.clients, pid, other);
    forall line | line != "DISCONNECT\n" && line != "QUIT\n"
      ensures Find(Step(s, Receive(pid, line)).clients, other).Some? <==> Find(s.clients, other).Some?
    {
      if Find(s.clients, pid).Some? {
        BroadcastReachesAll(s.clients, Print(CommandCommit(s, Receive(pid, line)).0), other);
      }
    }
  }
}
