/** The server core on values: submissions are executed and logged, and a commit publishes the log. */
module Cores {
  import opened Engine
  import opened Commands
  import opened Payloads

  datatype Core = Core(doc: Doc, version: Version, log: seq<Entry>)

  const INITIAL: Core := Core(EMPTY, 0, [])

  function LogEntry(user: string, line: string, result: CommandResult): Entry {
    Entry(user, WithoutTrailingNewline(line), result)
  }

  function Submit(core: Core, user: string, role: Role, line: string): (CommandResult, Core) {
    var (result, doc) := Execute(core.doc, core.version, role, line);
    (result, Core(doc, core.version, core.log + [LogEntry(user, line, result)]))
  }

  /** A commit without submissions publishes the unchanged version. */
  function Publish(core: Core): (Payload, Core) {
    if core.log == [] then (Payload(core.version, []), core)
    else
      var doc := Commit(core.doc);
      (Payload(doc.version, core.log), Core(doc, doc.version, []))
  }

  // ----- replaying a log

  /** Executes the logged commands that succeeded, as a writer. */
  function Replay(d: Doc, log: seq<Entry>): Doc {
    if |log| == 0 then d
    else
      var before := Replay(d, log[..|log| - 1]);
      var e := log[|log| - 1];
      if e.result == CmdSuccess then Execute(before, before.version, WriteRole, e.command).1 else before
  }

  /** The text a reader of a payload computes from the text it holds. */
  function ReplayText(text: string, log: seq<Entry>): string {
    Commit(Replay(Doc(text, [], 0), log)).committed
  }

  lemma ReplaySnoc(d: Doc, log: seq<Entry>, e: Entry)
    ensures Replay(d, log + [e]) ==
            var before := Replay(d, log);
            if e.result == CmdSuccess then Execute(before, before.version, WriteRole, e.command).1 else before
  {
    assert (log + [e])[..|log|] == log;
  }

  // ----- the invariant

  /** The core and its document agree on the version, and replaying the log on the committed text yields the
      pending queue; in particular an empty log means that nothing is pending. */
  predicate Consistent(core: Core) {
    && Valid(core.doc)
    && core.version == core.doc.version
    && Replay(Doc(core.doc.committed, [], 0), core.log) == core.doc.(version := 0)
  }

  lemma InitialIsConsistent()
    ensures Consistent(INITIAL)
  {
    EmptyIsValid();
  }

  lemma EmptyLogMeansNothingPending(core: Core)
    requires Consistent(core) && core.log == []
    ensures core.doc.ops == []
  {
  }

  lemma SubmitKeepsConsistent(core: Core, user: string, role: Role, line: string)
    requires Consistent(core)
    ensures Consistent(Submit(core, user, role, line).1)
    ensures Submit(core, user, role, line).1.doc.committed == core.doc.committed
    ensures Submit(core, user, role, line).1.version == core.version
  {
    var (result, core') := Submit(core, user, role, line);
    var e := LogEntry(user, line, result);
    ExecuteKeepsValid(core.doc, core.version, role, line);
    ReplaySnoc(Doc(core.doc.committed, [], 0), core.log, e);
    if result == CmdSuccess {
      SuccessIsReplayable(core.doc, core.version, role, line, core.doc.(version := 0));
    }
  }

  /** A submission logs one entry: who sent the line, the line without the one newline that may end it, and the
      result that the sender got. */
  lemma SubmitLogs(core: Core, user: string, role: Role, line: string)
    ensures var (result, after) := Submit(core, user, role, line);
            && |after.log| == |core.log| + 1 && after.log[..|core.log|] == core.log
            && var e := after.log[|core.log|];
            && e.user == user && e.result == result
            && (line == e.command + "\n" || (line == e.command && !(|line| > 0 && line[|line| - 1] == '\n')))
  {
  }

  lemma PublishKeepsConsistent(core: Core)
    requires Consistent(core)
    ensures Consistent(Publish(core).1)
    ensures Working(Publish(core).1.doc) == Publish(core).1.doc.committed
  {
    CommitKeepsValid(core.doc);
  }

  /** Submissions are never outdated. */
  lemma NeverOutdated(core: Core, user: string, role: Role, line: string)
    requires Consistent(core)
    ensures Submit(core, user, role, line).0 != RejectOutdatedVersion
  {
    var (token, rest) := NextToken(WithoutTrailingNewline(line));
    if token.Some? && VerbOf(token.value).Some? {
      var c := ParseArguments(VerbOf(token.value).value, rest);
      if c.Some? && !Accepts(core.doc, core.version, c.value) {
        RefusalIs(core.doc, core.version, c.value);
      } else if c.Some? {
        ExecMeans(core.doc, core.version, c.value);
      }
    }
  }

  /** The payload of a commit and the text before it determine the text after it. */
  lemma ReplayIsFaithful(core: Core)
    requires Consistent(core)
    ensures ReplayText(core.doc.committed, Publish(core).0.entries) == Publish(core).1.doc.committed
    ensures Publish(core).0.version == Publish(core).1.version
  {
    if core.log == [] {
      CommitKeepsValid(core.doc);
    }
  }

  // ----- runs

  datatype Action = SubmitAction(user: string, role: Role, line: string) | CommitAction

  /** What the outside sees of a run: the result of every submission of a writer and the text after every commit. */
  datatype Observation = Result(result: CommandResult) | Text(text: string)

  function Step(core: Core, a: Action): Core {
    match a
    case SubmitAction(user, role, line) => Submit(core, user, role, line).1
    case CommitAction => Publish(core).1
  }

  function Run(core: Core, actions: seq<Action>): Core
    decreases |actions|
  {
    if |actions| == 0 then core else Run(Step(core, actions[0]), actions[1..])
  }

  function Observe(core: Core, actions: seq<Action>): seq<Observation>
    decreases |actions|
  {
    if |actions| == 0 then []
    else
      var rest := Observe(Step(core, actions[0]), actions[1..]);
      match actions[0]
      case SubmitAction(user, role, line) =>
        if role == ReadRole then rest else [Result(Submit(core, user, role, line).0)] + rest
      case CommitAction => [Text(Publish(core).1.doc.committed)] + rest
  }

  /** The run without the submissions of readers. */
  function WithoutReaders(actions: seq<Action>): seq<Action> {
    if |actions| == 0 then []
    else if actions[0].SubmitAction? && actions[0].role == ReadRole then WithoutReaders(actions[1..])
    else [actions[0]] + WithoutReaders(actions[1..])
  }

  /** Every core that a run reaches is consistent. */
  lemma {:induction false} RunsAreConsistent(core: Core, actions: seq<Action>)
    requires Consistent(core)
    ensures Consistent(Run(core, actions))
    decreases |actions|
  {
    if |actions| == 0 {
    } else {
      match actions[0] {
        case SubmitAction(user, role, line) => SubmitKeepsConsistent(core, user, role, line);
        case CommitAction => PublishKeepsConsistent(core);
      }
      RunsAreConsistent(Step(core, actions[0]), actions[1..]);
    }
  }

  predicate OnlySubmissions(actions: seq<Action>) {
    forall i :: 0 <= i < |actions| ==> actions[i].SubmitAction?
  }

  lemma {:induction false} SubmissionsOnlyLog(core: Core, actions: seq<Action>)
    requires Consistent(core) && OnlySubmissions(actions)
    ensures Consistent(Run(core, actions))
    ensures Run(core, actions).doc.committed == core.doc.committed && Run(core, actions).version == core.version
    ensures |Run(core, actions).log| == |core.log| + |actions|
    decreases |actions|
  {
    if |actions| == 0 {
    } else {
      SubmitKeepsConsistent(core, actions[0].user, actions[0].role, actions[0].line);
      SubmissionsOnlyLog(Step(core, actions[0]), actions[1..]);
    }
  }

  /** Replay faithfulness: after any batch of submissions, valid or not, by readers and writers, the commit
      logs all of them; replaying those that succeeded, without their newlines and as a writer, on the text
      before the batch and committing gives the text after it. */
  lemma BatchIsReplayable(core: Core, batch: seq<Action>)
    requires Consistent(core) && core.log == [] && OnlySubmissions(batch)
    ensures var (payload, after) := Publish(Run(core, batch));
            && after.doc.committed == ReplayText(core.doc.committed, payload.entries)
            && |payload.entries| == |batch|
            && after.version == payload.version == (if batch == [] then core.version else NextVersion(core.version))
  {
    SubmissionsOnlyLog(core, batch);
    ReplayIsFaithful(Run(core, batch));
  }

  // ----- replaying many commits

  /** The document a client arrives at that starts from a version and a text and replays payloads. */
  function Follow(version: Version, text: string, ps: seq<Payload>): (Version, string) {
    if |ps| == 0 then (version, text)
    else
      var (_, before) := Follow(version, text, ps[..|ps| - 1]);
      (ps[|ps| - 1].version, ReplayText(before, ps[|ps| - 1].entries))
  }

  lemma FollowSnoc(version: Version, text: string, ps: seq<Payload>, p: Payload)
    ensures Follow(version, text, ps + [p]) == (p.version, ReplayText(Follow(version, text, ps).1, p.entries))
  {
    assert (ps + [p])[..|ps|] == ps;
  }

  lemma {:induction false} FollowCons(version: Version, text: string, p: Payload, ps: seq<Payload>)
    ensures Follow(version, text, [p] + ps) == Follow(p.version, ReplayText(text, p.entries), ps)
    decreases |ps|
  {
    var all := [p] + ps;
    if |ps| == 0 {
      assert all[..0] == [] && all == [p];
    } else {
      assert all[..|all| - 1] == [p] + ps[..|ps| - 1];
      FollowCons(version, text, p, ps[..|ps| - 1]);
    }
  }

  /** The payloads of the commits of a run. */
  function CommitsOf(core: Core, actions: seq<Action>): seq<Payload>
    decreases |actions|
  {
    if |actions| == 0 then []
    else (if actions[0].CommitAction? then [Publish(core).0] else []) + CommitsOf(Step(core, actions[0]), actions[1..])
  }

  /** Following all payloads of any run, with any number of submissions before each commit, leads to the version
      and the committed text of the core it reaches. */
  lemma {:induction false} RunIsFollowed(core: Core, actions: seq<Action>)
    requires Consistent(core)
    ensures Follow(core.version, core.doc.committed, CommitsOf(core, actions)) ==
            (Run(core, actions).version, Run(core, actions).doc.committed)
    decreases |actions|
  {
    if |actions| == 0 {
    } else {
      var next, rest := Step(core, actions[0]), actions[1..];
      match actions[0] {
        case SubmitAction(user, role, line) =>
          SubmitKeepsConsistent(core, user, role, line);
          assert CommitsOf(core, actions) == CommitsOf(next, rest);
        case CommitAction =>
          PublishKeepsConsistent(core);
          ReplayIsFaithful(core);
          FollowCons(core.version, core.doc.committed, Publish(core).0, CommitsOf(next, rest));
      }
      RunIsFollowed(next, rest);
    }
  }

  /** In particular from the empty document at version 0. */
  lemma RunsFromStartAreFollowed(actions: seq<Action>)
    ensures Follow(0, "", CommitsOf(INITIAL, actions)) ==
            (Run(INITIAL, actions).version, Run(INITIAL, actions).doc.committed)
  {
    InitialIsConsistent();
    RunIsFollowed(INITIAL, actions);
  }

  /** Two cores that differ at most in versions and in what readers logged. */
  predicate SameForWriters(a: Core, b: Core) {
    Consistent(a) && Consistent(b) && a.doc.committed == b.doc.committed && a.doc.ops == b.doc.ops
  }

  /** A command line does the same on documents that differ only in their version. */
  lemma VersionsDoNotMatter(d: Doc, e: Doc, role: Role, line: string)
    requires d.committed == e.committed && d.ops == e.ops
    ensures Execute(e, e.version, role, line).0 == Execute(d, d.version, role, line).0
    ensures Execute(e, e.version, role, line).1 == Execute(d, d.version, role, line).1.(version := e.version)
  {
    hide ParseArguments, NextToken, VerbOf, Exec, ValidLine, WithoutTrailingNewline;
    var (token, rest) := NextToken(WithoutTrailingNewline(line));
    if token.Some? && VerbOf(token.value).Some? {
      var c := ParseArguments(VerbOf(token.value).value, rest);
      if c.Some? {
        ExecIgnoresVersion(d, e, c.value);
      }
    }
  }

  lemma CommitsAgree(a: Core, b: Core)
    requires SameForWriters(a, b)
    ensures SameForWriters(Publish(a).1, Publish(b).1)
  {
    PublishKeepsConsistent(a);
    PublishKeepsConsistent(b);
    CommitKeepsValid(a.doc);
    CommitKeepsValid(b.doc);
  }

  /** Non-interference: what readers submit changes neither the committed texts nor the results of writers,
      although every commit that follows a reader's submission makes a new version. */
  lemma {:induction false} ReadersDoNotInterfere(a: Core, b: Core, actions: seq<Action>)
    requires SameForWriters(a, b)
    ensures Observe(a, actions) == Observe(b, WithoutReaders(actions))
    decreases |actions|
  {
    if |actions| == 0 {
    } else {
      var rest := actions[1..];
      var without := WithoutReaders(rest);
      match actions[0]
      case CommitAction =>
        CommitsAgree(a, b);
        ReadersDoNotInterfere(Publish(a).1, Publish(b).1, rest);
        assert ([actions[0]] + without)[1..] == without;
      case SubmitAction(user, role, line) =>
        SubmitKeepsConsistent(a, user, role, line);
        if role == ReadRole {
          ReadersChangeNothing(a.doc, a.version, line);
          ReadersDoNotInterfere(Submit(a, user, role, line).1, b, rest);
        } else {
          SubmitKeepsConsistent(b, user, role, line);
          VersionsDoNotMatter(a.doc, b.doc, role, line);
          ReadersDoNotInterfere(Submit(a, user, role, line).1, Submit(b, user, role, line).1, rest);
          assert ([actions[0]] + without)[1..] == without;
        }
    }
  }

  lemma ReadersDoNotInterfereWithRuns(actions: seq<Action>)
    ensures Observe(INITIAL, actions) == Observe(INITIAL, WithoutReaders(actions))
  {
    InitialIsConsistent();
    ReadersDoNotInterfere(INITIAL, INITIAL, actions);
  }
}
