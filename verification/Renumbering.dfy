/** Normalisation of ordered lists: every commit passes the new text through it. */
module Renumbering {
  import opened Wrappers
  import opened Text

  /** The shape digit, dot, space at index i. Lines are NUL-terminated in the C code, so the shape
      never reaches over the end of the text; it contains no newline, so it stays within its line. */
  predicate OrderedAt(text: string, i: nat) {
    i + 2 < |text| && IsDigit(text[i]) && text[i + 1] == '.' && text[i + 2] == ' '
  }

  predicate LineStart(text: string, i: nat) {
    i == 0 || (i <= |text| && text[i - 1] == '\n')
  }

  /** The start of the line that index i lies on. */
  function LineOf(text: string, i: nat): (start: nat)
    requires i <= |text|
    ensures start <= i && LineStart(text, start)
  {
    if LineStart(text, i) then i else LineOf(text, i - 1)
  }

  /** How many ordered-list lines stand directly above the line that starts at i. */
  function RunAbove(text: string, i: nat): nat
    requires i <= |text|
    decreases i
  {
    if i == 0 then 0
    else
      var above := LineOf(text, i - 1);
      if OrderedAt(text, above) then 1 + RunAbove(text, above) else 0
  }

  function Number(text: string, i: nat): char
    requires i <= |text|
  {
    Digit(Min(9, 1 + RunAbove(text, i)))
  }

  /** The normal form of a text: only the digit that opens an ordered-list line may change. */
  function Renumber(text: string): string {
    seq(|text|, (i: nat) requires i < |text| => NormalChar(text, i))
  }

  function NormalChar(text: string, i: nat): char
    requires i < |text|
  {
    if LineStart(text, i) && OrderedAt(text, i) then Number(text, i) else text[i]
  }

  predicate Normal(text: string) {
    Renumber(text) == text
  }

  // ----- what renumbering keeps

  lemma KeepsShapeAt(text: string, i: nat)
    ensures |Renumber(text)| == |text|
    ensures LineStart(Renumber(text), i) <==> LineStart(text, i)
    ensures OrderedAt(Renumber(text), i) <==> OrderedAt(text, i)
  {
    forall k | 0 <= k < |text|
      ensures Renumber(text)[k] == text[k] || (IsDigit(Renumber(text)[k]) && IsDigit(text[k]))
    {
    }
  }

  lemma {:induction false} RenumberKeepsLineOf(text: string, i: nat)
    requires i <= |text|
    ensures LineOf(Renumber(text), i) == LineOf(text, i)
  {
    KeepsShapeAt(text, i);
    if LineStart(text, i) {
    } else {
      RenumberKeepsLineOf(text, i - 1);
    }
  }

  lemma {:induction false} RenumberKeepsRuns(text: string, i: nat)
    requires i <= |text|
    ensures RunAbove(Renumber(text), i) == RunAbove(text, i)
    decreases i
  {
    if i == 0 {
    } else {
      var above := LineOf(text, i - 1);
      RenumberKeepsLineOf(text, i - 1);
      KeepsShapeAt(text, above);
      RenumberKeepsRuns(text, above);
    }
  }

  /** The normal form is reached after one pass. */
  lemma RenumberIdempotent(text: string)
    ensures Normal(Renumber(text))
  {
    var r := Renumber(text);
    forall i | 0 <= i < |r|
      ensures Renumber(r)[i] == r[i]
    {
      KeepsShapeAt(text, i);
      RenumberKeepsRuns(text, i);
    }
  }

  /** Length, newlines and lists stay where they are; only list digits change. */
  lemma RenumberTouchesOnlyListDigits(text: string)
    ensures |Renumber(text)| == |text|
    ensures forall i :: 0 <= i < |text| ==> (Renumber(text)[i] == '\n' <==> text[i] == '\n')
    ensures forall i :: 0 <= i < |text| && Renumber(text)[i] != text[i] ==>
              LineStart(text, i) && OrderedAt(text, i) && IsDigit(Renumber(text)[i])
    ensures forall i: nat :: i < |text| ==>
              (LineStart(text, i) && OrderedAt(text, i) <==>
               LineStart(Renumber(text), i) && OrderedAt(Renumber(text), i))
  {
    forall i: nat | i < |text|
      ensures Renumber(text)[i] == '\n' <==> text[i] == '\n'
      ensures Renumber(text)[i] != text[i] ==> LineStart(text, i) && OrderedAt(text, i) && IsDigit(Renumber(text)[i])
      ensures LineStart(text, i) && OrderedAt(text, i) <==>
              LineStart(Renumber(text), i) && OrderedAt(Renumber(text), i)
    {
      KeepsShapeAt(text, i);
    }
  }

  // ----- the normal form, line by line

  /** What changes is the digit of a line that starts with a digit, a dot and a space. */
  lemma RenumberChangesOnlyItems(text: string, i: nat)
    requires i < |text|
    ensures |Renumber(text)| == |text|
    ensures Renumber(text)[i] != text[i] ==>
              && (i == 0 || text[i - 1] == '\n')
              && i + 2 < |text| && '0' <= text[i] <= '9' && text[i + 1] == '.' && text[i + 2] == ' '
              && '1' <= Renumber(text)[i] <= '9'
  {
  }

  /** A list line under no list line gets the number 1. */
  lemma ListStartsAtOne(text: string, above: nat, i: nat)
    requires i + 2 < |text| && '0' <= text[i] <= '9' && text[i + 1] == '.' && text[i + 2] == ' '
    requires i == 0 || (above < i && text[i - 1] == '\n')
    requires 0 < i ==> (above == 0 || text[above - 1] == '\n') && forall k :: above <= k < i - 1 ==> text[k] != '\n'
    requires 0 < i ==> !('0' <= text[above] <= '9' && text[above + 1] == '.' && text[above + 2] == ' ')
    ensures Renumber(text)[i] == '1'
  {
    if 0 < i {
      LineOfStays(text, above, i - 1);
    }
  }

  /** A list line under a list line gets the number after it, and 9 after 9. */
  lemma ListGoesOnByOne(text: string, above: nat, i: nat)
    requires above < i && i + 2 < |text| && '0' <= text[i] <= '9' && text[i + 1] == '.' && text[i + 2] == ' '
    requires text[i - 1] == '\n' && forall k :: above <= k < i - 1 ==> text[k] != '\n'
    requires above == 0 || text[above - 1] == '\n'
    requires '0' <= text[above] <= '9' && text[above + 1] == '.' && text[above + 2] == ' '
    ensures var n := Renumber(text)[above];
            '1' <= n <= '9' && Renumber(text)[i] == if n == '9' then '9' else (n as int + 1) as char
  {
    LineOfStays(text, above, i - 1);
    assert OrderedAt(text, above) && OrderedAt(text, i);
    assert Number(text, i) == Digit(Min(9, 1 + RunAbove(text, i)));
  }

  // ----- the numbers of one list

  /** The line after the one that starts at a starts at b. */
  predicate StartsNextLine(text: string, a: nat, b: nat) {
    a < b <= |text| && text[b - 1] == '\n' && forall c :: a <= c < b - 1 ==> text[c] != '\n'
  }

  lemma NextNumber(k: nat)
    requires 0 < k
    ensures var n := "123456789"[Min(k - 1, 8)];
            '1' <= n <= '9' && "123456789"[Min(k, 8)] == if n == '9' then '9' else (n as int + 1) as char
  {
  }

  /** The k-th of consecutive lines that start with a digit, a dot and a space, under a line that does not, is
      numbered k, and every one from the ninth on is numbered 9. */
  lemma {:induction false} ListsAreNumberedFromOne(text: string, starts: seq<nat>, above: nat, k: nat)
    requires k < |starts|
    requires forall j :: 0 <= j < |starts| ==>
               && starts[j] + 2 < |text| && '0' <= text[starts[j]] <= '9'
               && text[starts[j] + 1] == '.' && text[starts[j] + 2] == ' '
    requires forall i, j :: 0 <= i && j == i + 1 < |starts| ==> StartsNextLine(text, starts[i], starts[j])
    requires starts[0] == 0 ||
             (&& above < starts[0] && text[starts[0] - 1] == '\n' && (above == 0 || text[above - 1] == '\n')
              && (forall i :: above <= i < starts[0] - 1 ==> text[i] != '\n')
              && !('0' <= text[above] <= '9' && text[above + 1] == '.' && text[above + 2] == ' '))
    ensures Renumber(text)[starts[k]] == "123456789"[Min(k, 8)]
  {
    hide Renumber;
    var i := starts[k];
    if k == 0 {
      ListStartsAtOne(text, above, i);
    } else {
      var before := starts[k - 1];
      ListsAreNumberedFromOne(text, starts, above, k - 1);
      assert StartsNextLine(text, before, i);
      if k > 1 {
        assert StartsNextLine(text, starts[k - 2], before);
      }
      ListGoesOnByOne(text, before, i);
      NextNumber(k);
    }
  }

  // ----- the loop

  /** Between two newlines all indices belong to the same line. */
  lemma {:induction false} LineOfStays(text: string, start: nat, end: nat)
    requires start <= end <= |text| && LineStart(text, start)
    requires forall k :: start <= k < end ==> text[k] != '\n'
    ensures LineOf(text, end) == start
    decreases end
  {
    if start == end {
    } else {
      LineOfStays(text, start, end - 1);
    }
  }

  /** Within a line only the first character can change ... */
  lemma LineKeepsTail(text: string, start: nat, end: nat)
    requires start <= end <= |text|
    requires forall k :: start <= k < end ==> text[k] != '\n'
    requires end == |text| || text[end] == '\n'
    ensures OrderedAt(text, start) ==> start + 3 <= end
    ensures forall k {:trigger Renumber(text)[k]} :: start < k < end ==> Renumber(text)[k] == text[k]
    ensures start < end && !OrderedAt(text, start) ==> Renumber(text)[start] == text[start]
    ensures end < |text| ==> Renumber(text)[end] == '\n'
  {
    if OrderedAt(text, start) {
      assert text[start + 1] != '\n' && text[start + 2] != '\n';
    }
    forall k | start < k < end
      ensures Renumber(text)[k] == text[k]
    {
      assert text[k - 1] != '\n';
    }
  }

  /** ... and a line continues or ends the run of list lines above it. */
  lemma RunAfterLine(text: string, start: nat, end: nat)
    requires start <= end < |text| && LineStart(text, start)
    requires forall k :: start <= k < end ==> text[k] != '\n'
    ensures RunAbove(text, end + 1) == if OrderedAt(text, start) then 1 + RunAbove(text, start) else 0
  {
    LineOfStays(text, start, end);
  }

  /** One pass over the lines that fills a buffer one longer than the text. */
  method RenumberOrderedLists(text: string) returns (out: array<char>)
    ensures out.Length == |text| + 1
    ensures out[..|text|] == Renumber(text) && out[|text|] == '\0'
  {
    var inLen := |text|;
    out := new char[inLen + 1];
    var outPos, i := 0, 0;
    var currentListNo, inOrderedBlock := 1, false;
    ghost var goal := Renumber(text);
    ghost var run := 0;
    while i < inLen
      invariant outPos == i <= inLen
      invariant i < inLen ==> LineStart(text, i)
      invariant i < inLen ==> run == RunAbove(text, i)
      invariant if inOrderedBlock then currentListNo == Min(9, 1 + run) else run == 0
      invariant forall k :: 0 <= k < i ==> out[k] == goal[k]
    {
      var lineStart := i;
      var lineEnd := FindLineEnd(text, lineStart);
      LineKeepsTail(text, lineStart, lineEnd);
      if lineEnd < inLen {
        RunAfterLine(text, lineStart, lineEnd);
      }
      var lineLen := lineEnd - lineStart;
      if OrderedAt(text, lineStart) {
        if !inOrderedBlock {
          currentListNo := 1;
          inOrderedBlock := true;
        }
        assert goal[i] == Digit(currentListNo);
        outPos := WriteItem(out, outPos, text, lineStart, lineLen, Digit(currentListNo));
        run := run + 1;
        currentListNo := currentListNo + 1;
        if currentListNo > 9 {
          currentListNo := 9;
        }
      } else {
        inOrderedBlock, run := false, 0;
        if lineLen > 0 {
          CopyInto(out, outPos, text, lineStart, lineLen);
          outPos := outPos + lineLen;
        }
      }
      if lineEnd < inLen && text[lineEnd] == '\n' {
        out[outPos] := '\n';
        outPos := outPos + 1;
        i := lineEnd + 1;
      } else {
        i := lineEnd;
      }
    }
    out[outPos] := '\0';
  }

  /** The index of the next newline, or the end of the text. */
  method FindLineEnd(text: string, start: nat) returns (end: nat)
    requires start <= |text|
    ensures start <= end <= |text| && (end == |text| || text[end] == '\n')
    ensures forall k :: start <= k < end ==> text[k] != '\n'
  {
    end := start;
    while end < |text| && text[end] != '\n'
      invariant start <= end <= |text|
      invariant forall k :: start <= k < end ==> text[k] != '\n'
    {
      end := end + 1;
    }
  }

  /** Writes one list line under a new number and returns the position after it. */
  method WriteItem(out: array<char>, at: nat, text: string, start: nat, len: nat, digit: char) returns (end: nat)
    requires at + len <= out.Length && start + len <= |text|
    requires OrderedAt(text, start) && 3 <= len
    modifies out
    ensures end == at + len
    ensures forall k {:trigger out[k]} :: 0 <= k < out.Length ==>
              out[k] == if k == at then digit else if at < k < end then text[start + (k - at)] else old(out[k])
  {
    out[at] := digit;
    out[at + 1] := '.';
    out[at + 2] := ' ';
    end := at + 3;
    if len > 3 {
      CopyInto(out, end, text, start + 3, len - 3);
      end := end + (len - 3);
    }
  }

  /** memcpy from a text into a buffer. */
  method CopyInto(out: array<char>, at: nat, text: string, from: nat, len: nat)
    requires at + len <= out.Length && from + len <= |text|
    modifies out
    ensures forall k {:trigger out[k]} :: 0 <= k < out.Length ==>
              out[k] == if at <= k < at + len then text[from + (k - at)] else old(out[k])
  {
    forall k | 0 <= k < len {
      out[at + k] := text[from + k];
    }
  }
}
