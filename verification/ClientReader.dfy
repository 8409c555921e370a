/** How the client program takes a broadcast off its pipe: in pieces of a bounded buffer, until the piece END. */
module ClientReader {
  import opened Wrappers
  import opened Text
  import opened Commands
  import opened Payloads

  /** The buffer of the client holds 511 characters and a terminator. */
  const PIECE_LIMIT: nat := 511

  /** A piece ends after the first newline, at the limit, or where the stream ends. */
  function PieceLength(s: string): (n: nat)
    ensures n <= |s| && (s != "" ==> 0 < n)
  {
    Min(Min(IndexOf(s, '\n') + 1, |s|), PIECE_LIMIT)
  }

  /** The pieces up to and including END, and what follows them; None when the stream ends before. */
  function ReadUntilEnd(s: string): Option<(string, string)>
    decreases |s|
  {
    if s == "" then None
    else
      var n := PieceLength(s);
      if s[..n] == "END\n" then Some((s[..n], s[n..])) else Prepended(s[..n], ReadUntilEnd(s[n..]))
  }

  function Prepended(piece: string, r: Option<(string, string)>): Option<(string, string)> {
    match r
    case None => None
    case Some((text, after)) => Some((piece + text, after))
  }

  /** One piece, and when it announces a payload, the pieces up to END. */
  function ReadBroadcast(s: string): Option<(string, string)> {
    if s == "" then None
    else
      var n := PieceLength(s);
      if StartsWith(s[..n], "VERSION ") then Prepended(s[..n], ReadUntilEnd(s[n..])) else Some((s[..n], s[n..]))
  }

  // ----- lines that do not look like the end

  lemma PieceOfShortLine(line: string, after: string)
    requires '\n' !in line && |line| < 511
    ensures var s, n := line + "\n" + after, |line| + 1;
            PieceLength(s) == n && s[..n] == line + "\n" && s[n..] == after
  {
    IndexOfFirst(line, '\n', after);
  }

  lemma PieceOfLongLine(line: string, after: string)
    requires '\n' !in line && 511 <= |line|
    ensures var s, n := line + "\n" + after, 511;
            PieceLength(s) == n && s[..n] == line[..n] && s[n..] == line[n..] + "\n" + after
  {
    IndexOfFirst(line, '\n', after);
  }

  lemma PrependTwice(a: string, b: string, r: Option<(string, string)>)
    ensures Prepended(a, Prepended(b, r)) == Prepended(a + b, r)
  {
    if r.Some? {
      Assoc(a, b, r.value.0);
    }
  }

  lemma TailEnds(line: string, n: nat, suffix: string)
    requires n <= |line| && EndsWith(line[n..], suffix)
    ensures EndsWith(line, suffix)
  {
    var k := |line| - |suffix|;
    assert line[n..][k - n..] == line[k..];
  }

  lemma LineFromParts(line: string, n: nat)
    requires n <= |line|
    ensures line[..n] + (line[n..] + "\n") == line + "\n"
  {
    assert line[..n] + line[n..] == line;
    Assoc(line[..n], line[n..], "\n");
  }

  /** A line of any length that does not end in END is read whole, and reading goes on behind it. */
  lemma {:induction false} ReadsLine(line: string, after: string)
    requires '\n' !in line && !EndsWith(line, "END")
    ensures ReadUntilEnd(line + "\n" + after) == Prepended(line + "\n", ReadUntilEnd(after))
    decreases |line|
  {
    if |line| < PIECE_LIMIT {
      PieceOfShortLine(line, after);
      OnlyEndReadsEnd(line);
    } else {
      var n := PIECE_LIMIT;
      PieceOfLongLine(line, after);
      if EndsWith(line[n..], "END") {
        TailEnds(line, n, "END");
      }
      ReadsLine(line[n..], after);
      PrependTwice(line[..n], line[n..] + "\n", ReadUntilEnd(after));
      LineFromParts(line, n);
    }
  }

  lemma OnlyEndReadsEnd(line: string)
    ensures line + "\n" == "END\n" ==> EndsWith(line, "END")
  {
    assert line == (line + "\n")[..|line|];
  }

  lemma NamesDoNotEnd(r: CommandResult)
    ensures |ResultName(r)| >= 3 && ResultName(r)[|ResultName(r)| - 3..] != "END"
  {
    var name := ResultName(r);
    assert name[|name| - 1] != 'D' || name[|name| - 3] != 'E';
  }

  lemma TailKept(head: string, name: string)
    requires |name| >= 3
    ensures (head + name)[|head + name| - 3..] == name[|name| - 3..]
  {
  }

  lemma EntryDoesNotEnd(e: Entry)
    ensures !EndsWith(EntryLine(e), "END")
  {
    var head, name := "EDIT " + (e.user + " " + (e.command + " ")), ResultName(e.result);
    assert EntryLine(e) == head + name;
    NamesDoNotEnd(e.result);
    TailKept(head, name);
  }

  lemma ReadsEnd(rest: string)
    ensures ReadUntilEnd("END\n" + rest) == Some(("END\n", rest))
  {
    PieceOfShortLine("END", rest);
    assert "END" + "\n" + rest == "END\n" + rest;
  }

  lemma {:induction false} ReadsEntries(es: seq<Entry>, rest: string)
    requires Clean(es)
    ensures ReadUntilEnd(PrintEntries(es) + ("END\n" + rest)) == Some((PrintEntries(es) + "END\n", rest))
    decreases |es|
  {
    if |es| == 0 {
      NoEntries(es, "END\n" + rest);
      NoEntries(es, "END\n");
      ReadsEnd(rest);
    } else {
      PrintEntriesFirst(es, "END\n" + rest);
      PrintEntriesFirst(es, "END\n");
      EntryLineIsOneLine(es[0]);
      EntryDoesNotEnd(es[0]);
      ReadsLine(EntryLine(es[0]), PrintEntries(es[1..]) + ("END\n" + rest));
      ReadsEntries(es[1..], rest);
    }
  }

  lemma HeadDoesNotEnd(p: Payload)
    ensures var line := "VERSION " + Decimal(p.version);
            '\n' !in line && !EndsWith(line, "END")
  {
    HeadLine(p.version);
    var line := "VERSION " + Decimal(p.version);
    DecimalRoundTrip(p.version);
    assert IsDigit(line[|line| - 1]);
  }

  lemma FirstPiece(line: string, after: string)
    requires '\n' !in line && StartsWith(line, "VERSION ") && !EndsWith(line, "END")
    ensures ReadBroadcast(line + "\n" + after) == ReadUntilEnd(line + "\n" + after)
  {
    var s := line + "\n" + after;
    var n := PieceLength(s);
    if |line| < PIECE_LIMIT {
      PieceOfShortLine(line, after);
      assert s[..n][..8] == line[..8];
    } else {
      PieceOfLongLine(line, after);
      assert s[..n][..8] == line[..8];
    }
    assert s[..n][0] == line[..8][0] == 'V';
  }

  /** From the front of any stream the client takes exactly one payload, however long its lines are. */
  lemma TakesOnePayload(p: Payload, rest: string)
    requires Clean(p.entries)
    ensures ReadBroadcast(Print(p) + rest) == Some((Print(p), rest))
  {
    var line := "VERSION " + Decimal(p.version);
    var after := PrintEntries(p.entries) + ("END\n" + rest);
    PrintThen(p, rest);
    HeadLine(p.version);
    HeadDoesNotEnd(p);
    FirstPiece(line, after);
    ReadsLine(line, after);
    ReadsEntries(p.entries, rest);
    Assoc(PrintHead(p.version), PrintEntries(p.entries), "END\n");
  }
}
