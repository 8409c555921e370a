/** The text that announces a commit to the clients, and a reader for it. */
module Payloads {
  import opened Wrappers
  import opened Text
  import opened Engine
  import opened Commands

  datatype Entry = Entry(user: string, command: string, result: CommandResult)

  datatype Payload = Payload(version: Version, entries: seq<Entry>)

  function ResultName(r: CommandResult): string {
    match r
    case CmdSuccess => "SUCCESS"
    case RejectUnauthorised => "Reject UNAUTHORISED"
    case RejectInvalidPosition => "Reject INVALID_POSITION"
    case RejectDeletedPosition => "Reject DELETED_POSITION"
    case RejectOutdatedVersion => "Reject OUTDATED_VERSION"
    case RejectInvalidCommand => "Reject INVALID_COMMAND"
  }

  function PrintHead(version: Version): string {
    "VERSION " + Decimal(version) + "\n"
  }

  function EntryLine(e: Entry): string {
    "EDIT " + (e.user + " " + (e.command + (" " + ResultName(e.result))))
  }

  function PrintEntry(e: Entry): string {
    EntryLine(e) + "\n"
  }

  function PrintEntries(es: seq<Entry>): string {
    Concat(seq(|es|, (i: nat) requires i < |es| => PrintEntry(es[i])))
  }

  function Print(p: Payload): string {
    PrintHead(p.version) + PrintEntries(p.entries) + "END\n"
  }

  // ----- reading

  /** The first line without its newline, and what follows it. */
  function NextLine(s: string): (r: Option<(string, string)>)
    ensures r.Some? ==> '\n' !in r.value.0 && |r.value.1| < |s|
  {
    var k := IndexOf(s, '\n');
    if k == |s| then None else Some((s[..k], s[k + 1..]))
  }

  predicate StartsWith(s: string, prefix: string) {
    |prefix| <= |s| && s[..|prefix|] == prefix
  }

  predicate EndsWith(s: string, suffix: string) {
    |suffix| <= |s| && s[|s| - |suffix|..] == suffix
  }

  /** What stands before a final name, paired with the result that it names. */
  function CutSuffix(s: string, name: string, r: CommandResult): Option<(string, CommandResult)> {
    var suffix := " " + name;
    if EndsWith(s, suffix) then Some((s[..|s| - |suffix|], r)) else None
  }

  function OrElse<T>(a: Option<T>, b: Option<T>): Option<T> {
    if a.Some? then a else b
  }

  /** Splits a result off the end of an entry line. */
  function SplitResult(s: string): Option<(string, CommandResult)> {
    OrElse(CutSuffix(s, "SUCCESS", CmdSuccess),
    OrElse(CutSuffix(s, "Reject UNAUTHORISED", RejectUnauthorised),
    OrElse(CutSuffix(s, "Reject INVALID_POSITION", RejectInvalidPosition),
    OrElse(CutSuffix(s, "Reject DELETED_POSITION", RejectDeletedPosition),
    OrElse(CutSuffix(s, "Reject OUTDATED_VERSION", RejectOutdatedVersion),
           CutSuffix(s, "Reject INVALID_COMMAND", RejectInvalidCommand))))))
  }

  function ReadEntry(line: string): Option<Entry> {
    if !StartsWith(line, "EDIT ") then None
    else
      var body := line[5..];
      var k := IndexOf(body, ' ');
      if k == |body| then None
      else
        match SplitResult(body[k + 1..])
        case None => None
        case Some((command, result)) => Some(Entry(body[..k], command, result))
  }

  /** Reads entry lines up to the line END. */
  function ReadEntries(s: string): (r: Option<(seq<Entry>, string)>)
    ensures r.Some? ==> |r.value.1| < |s|
    decreases |s|
  {
    match NextLine(s)
    case None => None
    case Some((line, rest)) =>
      if line == "END" then Some(([], rest))
      else
        match (ReadEntry(line), ReadEntries(rest))
        case (Some(e), Some((es, after))) => Some(([e] + es, after))
        case _ => None
  }

  function ReadNumber(s: string): Option<nat> {
    if s != "" && AllDigits(s) then Some(DecimalValue(s)) else None
  }

  /** Reads one payload off the front of a stream. */
  function Read(s: string): (r: Option<(Payload, string)>)
    ensures r.Some? ==> |r.value.1| < |s|
  {
    match NextLine(s)
    case None => None
    case Some((line, rest)) =>
      if !StartsWith(line, "VERSION ") then None
      else
        match (ReadNumber(line[8..]), ReadEntries(rest))
        case (Some(v), Some((es, after))) => if v < VERSION_MODULUS then Some((Payload(v, es), after)) else None
        case _ => None
  }

  // ----- the round trip

  /** A user is one word on one line and a command is one line. */
  predicate CleanEntry(e: Entry) {
    ' ' !in e.user && '\n' !in e.user && '\n' !in e.command
  }

  predicate Clean(es: seq<Entry>) {
    forall i :: 0 <= i < |es| ==> CleanEntry(es[i])
  }

  lemma PrintEntriesCons(e: Entry, es: seq<Entry>)
    ensures PrintEntries([e] + es) == PrintEntry(e) + PrintEntries(es)
  {
    var pieces := seq(|es|, (i: nat) requires i < |es| => PrintEntry(es[i]));
    var all := [e] + es;
    assert seq(|all|, (i: nat) requires i < |all| => PrintEntry(all[i])) == [PrintEntry(e)] + pieces;
    ConcatCons(PrintEntry(e), pieces);
  }

  lemma PrintEntriesSnoc(es: seq<Entry>, e: Entry)
    ensures PrintEntries(es + [e]) == PrintEntries(es) + PrintEntry(e)
  {
    var pieces := seq(|es|, (i: nat) requires i < |es| => PrintEntry(es[i]));
    var all := es + [e];
    assert seq(|all|, (i: nat) requires i < |all| => PrintEntry(all[i])) == pieces + [PrintEntry(e)];
    ConcatSnoc(pieces, PrintEntry(e));
  }

  lemma NextLineOf(line: string, rest: string)
    requires '\n' !in line
    ensures NextLine(line + "\n" + rest) == Some((line, rest))
  {
    IndexOfFirst(line, '\n', rest);
  }

  lemma SuffixesDiffer(s: string, r: CommandResult, q: CommandResult)
    ensures CutSuffix(s + (" " + ResultName(r)), ResultName(q), q) == if q == r then Some((s, r)) else None
  {
    var t := s + (" " + ResultName(r));
    if q == r {
      assert t[..|t| - |" " + ResultName(q)|] == s;
    } else {
      TailDiffers(s, r, q);
    }
  }

  lemma SuffixChar(t: string, suffix: string, d: nat)
    requires EndsWith(t, suffix) && 0 < d <= |suffix|
    ensures suffix[|suffix| - d] == t[|t| - d]
  {
  }

  lemma SameEnds(t: string, a: string, b: string, d: nat)
    requires EndsWith(t, a) && EndsWith(t, b) && 0 < d <= |a| && d <= |b|
    ensures a[|a| - d] == b[|b| - d]
  {
    SuffixChar(t, a, d);
    SuffixChar(t, b, d);
  }

  /** The characters of a result name, after its blank, at the distances 1, 2 and 4 from the end. */
  function Ending(r: CommandResult): (char, char, char) {
    match r
    case CmdSuccess => ('S', 'S', 'C')
    case RejectUnauthorised => ('D', 'E', 'I')
    case RejectInvalidPosition => ('N', 'O', 'T')
    case RejectDeletedPosition => ('N', 'O', 'T')
    case RejectOutdatedVersion => ('N', 'O', 'S')
    case RejectInvalidCommand => ('D', 'N', 'M')
  }

  lemma NameEnding(r: CommandResult)
    ensures var a := " " + ResultName(r);
            && |a| >= 4 && (a[|a| - 1], a[|a| - 2], a[|a| - 4]) == Ending(r)
            && (r.RejectInvalidPosition? ==> |a| >= 11 && a[|a| - 11] == 'I')
            && (r.RejectDeletedPosition? ==> |a| >= 11 && a[|a| - 11] == 'E')
  {
  }

  /** No result name is the end of another one: they differ in a character at a fixed distance from the end. */
  lemma TailDiffers(s: string, r: CommandResult, q: CommandResult)
    requires q != r
    ensures !EndsWith(s + (" " + ResultName(r)), " " + ResultName(q))
  {
    hide ResultName;
    var a, b := " " + ResultName(r), " " + ResultName(q);
    var t := s + a;
    NameEnding(r);
    NameEnding(q);
    assert t[|t| - |a|..] == a;
    if EndsWith(t, b) {
      SameEnds(t, a, b, 1);
      SameEnds(t, a, b, 2);
      SameEnds(t, a, b, 4);
      if |a| >= 11 && |b| >= 11 {
        SameEnds(t, a, b, 11);
      }
      assert false;
    }
  }

  lemma SplitResultOf(s: string, r: CommandResult)
    ensures SplitResult(s + (" " + ResultName(r))) == Some((s, r))
  {
    SuffixesDiffer(s, r, CmdSuccess);
    SuffixesDiffer(s, r, RejectUnauthorised);
    SuffixesDiffer(s, r, RejectInvalidPosition);
    SuffixesDiffer(s, r, RejectDeletedPosition);
    SuffixesDiffer(s, r, RejectOutdatedVersion);
    SuffixesDiffer(s, r, RejectInvalidCommand);
  }

  lemma ReadEntryOf(e: Entry)
    requires CleanEntry(e)
    ensures ReadEntry(EntryLine(e)) == Some(e)
  {
    var tail := e.command + (" " + ResultName(e.result));
    var body := e.user + " " + tail;
    assert EntryLine(e)[5..] == body && EntryLine(e)[..5] == "EDIT ";
    IndexOfFirst(e.user, ' ', tail);
    SplitResultOf(e.command, e.result);
  }

  lemma EntryLineIsOneLine(e: Entry)
    requires CleanEntry(e)
    ensures '\n' !in EntryLine(e) && EntryLine(e) != "END"
  {
    assert '\n' !in ResultName(e.result);
    assert EntryLine(e)[1] == 'D';
  }

  lemma ReadEntriesStep(e: Entry, after: string, es: seq<Entry>, rest: string)
    requires CleanEntry(e) && ReadEntries(after) == Some((es, rest))
    ensures ReadEntries(PrintEntry(e) + after) == Some(([e] + es, rest))
  {
    EntryLineIsOneLine(e);
    NextLineOf(EntryLine(e), after);
    ReadEntryOf(e);
  }

  lemma ReadEnd(rest: string)
    ensures ReadEntries("END\n" + rest) == Some(([], rest))
  {
    NextLineOf("END", rest);
    assert "END\n" + rest == "END" + "\n" + rest;
  }

  lemma {:induction false} ReadEntriesOf(es: seq<Entry>, rest: string)
    requires Clean(es)
    ensures ReadEntries(PrintEntries(es) + ("END\n" + rest)) == Some((es, rest))
    decreases |es|
  {
    if |es| == 0 {
      ReadEnd(rest);
      NoEntries(es, "END\n" + rest);
    } else {
      PrintEntriesFirst(es, "END\n" + rest);
      ReadEntriesOf(es[1..], rest);
      ReadEntriesStep(es[0], PrintEntries(es[1..]) + ("END\n" + rest), es[1..], rest);
      SplitFirst(es);
    }
  }

  lemma NoEntries(es: seq<Entry>, after: string)
    requires |es| == 0
    ensures PrintEntries(es) + after == after
  {
  }

  lemma PrintEntriesFirst(es: seq<Entry>, after: string)
    requires |es| > 0
    ensures PrintEntries(es) + after == PrintEntry(es[0]) + (PrintEntries(es[1..]) + after)
  {
    SplitFirst(es);
    PrintEntriesCons(es[0], es[1..]);
    Assoc(PrintEntry(es[0]), PrintEntries(es[1..]), after);
  }

  lemma CleanCons(e: Entry, es: seq<Entry>)
    requires CleanEntry(e) && Clean(es)
    ensures Clean([e] + es)
  {
  }

  lemma {:induction false} ReadEntriesAreClean(s: string)
    ensures ReadEntries(s).Some? ==> Clean(ReadEntries(s).value.0)
    decreases |s|
  {
    if ReadEntries(s).None? {
    } else {
      var (line, rest) := NextLine(s).value;
      if line != "END" {
        ReadEntriesAreClean(rest);
        ReadEntryIsClean(line);
        CleanCons(ReadEntry(line).value, ReadEntries(rest).value.0);
      }
    }
  }

  lemma SplitResultIsPrefix(s: string)
    requires SplitResult(s).Some?
    ensures var command := SplitResult(s).value.0; |command| <= |s| && command == s[..|command|]
  {
  }

  lemma SlicesKeepOut(s: string, i: nat, j: nat)
    requires i <= j <= |s| && '\n' !in s
    ensures '\n' !in s[i..j]
  {
  }

  lemma ReadEntryIsClean(line: string)
    requires '\n' !in line && ReadEntry(line).Some?
    ensures CleanEntry(ReadEntry(line).value)
  {
    hide SplitResult;
    var body := line[5..];
    var k := IndexOf(body, ' ');
    SlicesKeepOut(line, 5, |line|);
    assert '\n' !in body[k + 1..];
    SplitIsClean(body[k + 1..]);
    assert '\n' !in body[..k];
  }

  lemma SplitIsClean(s: string)
    requires '\n' !in s && SplitResult(s).Some?
    ensures '\n' !in SplitResult(s).value.0
  {
    hide SplitResult;
    SplitResultIsPrefix(s);
    SlicesKeepOut(s, 0, |SplitResult(s).value.0|);
  }

  lemma HeadLine(version: Version)
    ensures PrintHead(version) == "VERSION " + Decimal(version) + "\n"
    ensures '\n' !in "VERSION " + Decimal(version)
    ensures StartsWith("VERSION " + Decimal(version), "VERSION ")
    ensures ReadNumber(("VERSION " + Decimal(version))[8..]) == Some(version)
  {
    DecimalRoundTrip(version);
    assert ("VERSION " + Decimal(version))[8..] == Decimal(version);
  }

  /** A printed payload can be read back from the front of any stream exactly when its users are single words
      and its users and commands contain no newline. */
  lemma PayloadRoundTrip(p: Payload, rest: string)
    ensures Read(Print(p) + rest) == Some((p, rest)) <==> Clean(p.entries)
  {
    var after := PrintEntries(p.entries) + ("END\n" + rest);
    PrintThen(p, rest);
    HeadLine(p.version);
    NextLineOf("VERSION " + Decimal(p.version), after);
    if Clean(p.entries) {
      ReadEntriesOf(p.entries, rest);
    } else if Read(Print(p) + rest) == Some((p, rest)) {
      ReadEntriesAreClean(after);
    }
  }

  lemma PrintThen(p: Payload, rest: string)
    ensures Print(p) + rest == PrintHead(p.version) + (PrintEntries(p.entries) + ("END\n" + rest))
  {
    Assoc(PrintHead(p.version) + PrintEntries(p.entries), "END\n", rest);
    Assoc(PrintHead(p.version), PrintEntries(p.entries), "END\n" + rest);
  }

  // ----- lines

  /** All lines of a text that ends with a newline. */
  function Lines(s: string): seq<string>
    decreases |s|
  {
    match NextLine(s)
    case None => []
    case Some((line, rest)) => [line] + Lines(rest)
  }

  lemma LinesStep(line: string, after: string)
    requires '\n' !in line
    ensures Lines(line + "\n" + after) == [line] + Lines(after)
  {
    NextLineOf(line, after);
  }

  function EntryLines(es: seq<Entry>): seq<string> {
    seq(|es|, (i: nat) requires i < |es| => EntryLine(es[i]))
  }

  lemma EntryLinesFirst(es: seq<Entry>)
    requires |es| > 0
    ensures EntryLines(es) + ["END"] == [EntryLine(es[0])] + (EntryLines(es[1..]) + ["END"])
  {
    assert EntryLines(es) == [EntryLine(es[0])] + EntryLines(es[1..]);
  }

  lemma LinesOfEnd()
    ensures Lines("END\n") == ["END"]
  {
    LinesStep("END", "");
    assert "END" + "\n" + "" == "END\n";
    assert Lines("") == [];
  }

  lemma {:induction false} LinesOfEntries(es: seq<Entry>)
    requires Clean(es)
    ensures Lines(PrintEntries(es) + "END\n") == EntryLines(es) + ["END"]
    decreases |es|
  {
    if |es| == 0 {
      NoEntries(es, "END\n");
      LinesOfEnd();
      assert EntryLines(es) == [];
    } else {
      PrintEntriesFirst(es, "END\n");
      EntryLineIsOneLine(es[0]);
      LinesOfEntries(es[1..]);
      LinesStep(EntryLine(es[0]), PrintEntries(es[1..]) + "END\n");
      EntryLinesFirst(es);
    }
  }

  /** A client that reads lines until END reads exactly the payload: the version line, one line per entry,
      and END, which does not occur before. */
  lemma PayloadLines(p: Payload)
    requires Clean(p.entries)
    ensures Lines(Print(p)) == ["VERSION " + Decimal(p.version)] + EntryLines(p.entries) + ["END"]
    ensures forall i :: 0 <= i < |p.entries| ==> EntryLines(p.entries)[i] != "END"
  {
    var line := "VERSION " + Decimal(p.version);
    var after := PrintEntries(p.entries) + "END\n";
    HeadLine(p.version);
    LinesStep(line, after);
    LinesOfEntries(p.entries);
    Assoc(PrintHead(p.version), PrintEntries(p.entries), "END\n");
    Assoc([line], EntryLines(p.entries), ["END"]);
    forall i | 0 <= i < |p.entries|
      ensures EntryLines(p.entries)[i] != "END"
    {
      EntryLineIsOneLine(p.entries[i]);
    }
  }
}
