/** The document engine on values: what each editing command enqueues, when it is refused, and what it
    means for the text. Class Document carries out the same commands step by step. */
module Engine {
  import opened Wrappers
  import opened Ops
  import opened Renumbering

  /** Document versions are unsigned 64-bit numbers and wrap around. */
  const VERSION_MODULUS: nat := 0x1_0000_0000_0000_0000
  type Version = v: nat | v < VERSION_MODULUS

  /** Sizes are unsigned 64-bit numbers. */
  const SIZE_MODULUS: nat := 0x1_0000_0000_0000_0000

  function NextVersion(v: Version): Version {
    (v + 1) % VERSION_MODULUS
  }

  /** Versions run from 0 to 2^64 - 1 and start over. */
  lemma VersionsAre64Bit(v: nat)
    ensures v < 0x1_0000_0000_0000_0000 ==>
              NextVersion(v) == if v == 0xFFFF_FFFF_FFFF_FFFF then 0 else v + 1
  {
  }

  datatype Doc = Doc(committed: string, ops: seq<Op<char>>, version: Version)

  datatype Outcome = Success | InvalidCursorPos | DeletedPosition | OutdatedVersion

  datatype Command =
    | Insert(pos: nat, content: string)
    | Del(pos: nat, len: nat)
    | Newline(pos: nat)
    | Heading(level: nat, pos: nat)
    | Bold(start: nat, end: nat)
    | Italic(start: nat, end: nat)
    | Blockquote(pos: nat)
    | OrderedList(pos: nat)
    | UnorderedList(pos: nat)
    | Code(start: nat, end: nat)
    | HorizontalRule(pos: nat)
    | Link(start: nat, end: nat, url: string)

  const EMPTY: Doc := Doc("", [], 0)

  function Working(d: Doc): string {
    ApplyAll(d.committed, d.ops)
  }

  /** The invariant of every document the engine produces. */
  predicate Valid(d: Doc) {
    WellFormed(d.committed, d.ops) && Normal(d.committed)
  }

  function Commit(d: Doc): Doc {
    Doc(Renumber(Working(d)), [], NextVersion(d.version))
  }

  // ----- what a command enqueues

  datatype Plan = Enqueue(ops: seq<Op<char>>) | Refuse(why: Outcome)

  function Hashes(level: nat): string {
    seq(level, _ => '#')
  }

  /** The prefix a block command puts at the start of a line. */
  function BlockTag(c: Command): string {
    if c.Heading? then Hashes(c.level) + " "
    else if c.Blockquote? then "> "
    else if c.OrderedList? then "1. "
    else if c.UnorderedList? then "- "
    else if c.HorizontalRule? then "---\n"
    else ""
  }

  predicate IsRange(c: Command) {
    c.Bold? || c.Italic? || c.Code? || c.Link?
  }

  function Opening(c: Command): string {
    if c.Bold? then "**" else if c.Italic? then "*" else if c.Code? then "`" else "["
  }

  function Closing(c: Command): string {
    if c.Bold? then "**" else if c.Italic? then "*" else if c.Link? then "](" + c.url + ")" else "`"
  }

  predicate AtLineStart(w: string, pos: nat) {
    pos <= |w| && LineStart(w, pos)
  }

  predicate BeforeSpace(w: string, pos: nat) {
    pos < |w| && w[pos] == ' '
  }

  function BlockOps(w: string, pos: nat, tag: string): seq<Op<char>> {
    if AtLineStart(w, pos) then [Op.Insert(pos, tag)] else [Op.Insert(pos, "\n"), Op.Insert(pos + 1, tag)]
  }

  function PlanRange(d: Doc, start: nat, end: nat, open: string, close: string): Plan {
    if start >= end || end > |d.committed| then Refuse(InvalidCursorPos)
    else
      match (Transform(d.ops, start), Transform(d.ops, end))
      case (Some(s), Some(e)) => Enqueue([Op.Insert(e, close), Op.Insert(s, open)])
      case _ => Refuse(DeletedPosition)
  }

  function DelOps(w: string, pos: nat, len: nat): seq<Op<char>>
    requires pos <= |w|
  {
    if len == 0 then [] else [Op.Delete(pos, Min(len, |w| - pos))]
  }

  function NewlineOps(w: string, pos: nat): seq<Op<char>> {
    if BeforeSpace(w, pos) then [Op.Delete(pos, 1), Op.Insert(pos, "\n")] else [Op.Insert(pos, "\n")]
  }

  function ListOps(w: string, pos: nat, tag: string): seq<Op<char>> {
    if BeforeSpace(w, pos) then [Op.Delete(pos, 1)] + BlockOps(w[..pos] + w[pos + 1..], pos, tag)
    else BlockOps(w, pos, tag)
  }

  function PlanAt(w: string, c: Command): Plan
    requires !IsRange(c)
  {
    if c.pos > |w| then Refuse(InvalidCursorPos)
    else if c.Insert? then Enqueue([Op.Insert(c.pos, c.content)])
    else if c.Del? then Enqueue(DelOps(w, c.pos, c.len))
    else if c.Newline? then Enqueue(NewlineOps(w, c.pos))
    else if c.OrderedList? then Enqueue(ListOps(w, c.pos, BlockTag(c)))
    else Enqueue(BlockOps(w, c.pos, BlockTag(c)))
  }

  function PlanOf(d: Doc, version: Version, c: Command): Plan {
    if c.Heading? && !(1 <= c.level <= 3) then Refuse(InvalidCursorPos)
    else if version != d.version then Refuse(OutdatedVersion)
    else if IsRange(c) then PlanRange(d, c.start, c.end, Opening(c), Closing(c))
    else PlanAt(Working(d), c)
  }

  /** A command either enqueues its whole plan or is refused and changes nothing. */
  function Exec(d: Doc, version: Version, c: Command): (Outcome, Doc) {
    match PlanOf(d, version, c)
    case Enqueue(ops) => (Success, d.(ops := d.ops + ops))
    case Refuse(why) => (why, d)
  }

  // ----- what a command means

  /** A block command moves to a line start, breaking the line when it is not at one, and puts its tag there. */
  function WithBlock(w: string, pos: nat, tag: string): string
    requires pos <= |w|
  {
    if LineStart(w, pos) then w[..pos] + tag + w[pos..] else w[..pos] + "\n" + tag + w[pos..]
  }

  /** Deletion runs at most to the end of the text. */
  function Without(w: string, pos: nat, len: nat): string
    requires pos <= |w|
  {
    if len == 0 then w else w[..pos] + w[Min(pos + len, |w|)..]
  }

  /** A line break replaces a space that stands at its position. */
  function WithNewline(w: string, pos: nat): string
    requires pos <= |w|
  {
    w[..pos] + "\n" + (if BeforeSpace(w, pos) then w[pos + 1..] else w[pos..])
  }

  /** A list item swallows a space that stands at its position. */
  function WithListItem(w: string, pos: nat, tag: string): string
    requires pos <= |w|
  {
    WithBlock(if BeforeSpace(w, pos) then w[..pos] + w[pos + 1..] else w, pos, tag)
  }

  function Wrapped(w: string, s: nat, e: nat, open: string, close: string): string
    requires s <= e <= |w|
  {
    w[..s] + open + w[s..e] + close + w[e..]
  }

  /** The working text after a successful command, as a function of the working text before it
      and, for range commands, of the carried-over range. */
  function Effect(w: string, s: nat, e: nat, c: Command): string
    requires IsRange(c) ==> s <= e <= |w|
    requires !IsRange(c) ==> c.pos <= |w|
  {
    if IsRange(c) then Wrapped(w, s, e, Opening(c), Closing(c))
    else if c.Insert? then w[..c.pos] + c.content + w[c.pos..]
    else if c.Del? then Without(w, c.pos, c.len)
    else if c.Newline? then WithNewline(w, c.pos)
    else if c.OrderedList? then WithListItem(w, c.pos, BlockTag(c))
    else WithBlock(w, c.pos, BlockTag(c))
  }

  /** What the caller must meet for a command to succeed. */
  predicate Accepts(d: Doc, version: Version, c: Command) {
    && version == d.version
    && (c.Heading? ==> 1 <= c.level <= 3)
    && (!IsRange(c) ==> c.pos <= |Working(d)|)
    && (IsRange(c) ==> c.start < c.end <= |d.committed| &&
                             Transform(d.ops, c.start).Some? && Transform(d.ops, c.end).Some?)
  }

  // ----- applying short plans

  lemma ApplyOne<T>(text: seq<T>, a: Op<T>)
    ensures ApplyAll(text, [a]) == Apply(text, a)
    ensures WellFormed(text, [a]) <==> InBounds(|text|, a)
  {
    assert [a][..0] == [];
  }

  lemma ApplyTwo<T>(text: seq<T>, a: Op<T>, b: Op<T>)
    ensures ApplyAll(text, [a, b]) == Apply(Apply(text, a), b)
    ensures WellFormed(text, [a, b]) <==> InBounds(|text|, a) && InBounds(|Apply(text, a)|, b)
  {
    ApplyOne(text, a);
    assert [a, b][..1] == [a];
  }

  lemma InsertAfterInsert<T>(text: seq<T>, pos: nat, a: seq<T>, b: seq<T>)
    requires pos <= |text|
    ensures Apply(Apply(text, Op.Insert(pos, a)), Op.Insert(pos + |a|, b)) == text[..pos] + a + b + text[pos..]
  {
    var mid := text[..pos] + a + text[pos..];
    assert mid[..pos + |a|] == text[..pos] + a;
    assert mid[pos + |a|..] == text[pos..];
  }

  lemma InsertBeforeInsert<T>(text: seq<T>, s: nat, e: nat, open: seq<T>, close: seq<T>)
    requires s <= e <= |text|
    ensures Apply(Apply(text, Op.Insert(e, close)), Op.Insert(s, open)) ==
            text[..s] + open + text[s..e] + close + text[e..]
  {
    var mid := text[..e] + close + text[e..];
    assert mid[..s] == text[..s];
    assert mid[s..] == text[s..e] + close + text[e..];
    assert text[..s] + open + (text[s..e] + close + text[e..]) == text[..s] + open + text[s..e] + close + text[e..];
  }

  lemma InsertAfterDelete(text: string, pos: nat, data: string)
    requires pos < |text|
    ensures Apply(Apply(text, Op.Delete(pos, 1)), Op.Insert(pos, data)) == text[..pos] + data + text[pos + 1..]
  {
    var mid := text[..pos] + text[pos + 1..];
    assert mid[..pos] == text[..pos];
    assert mid[pos..] == text[pos + 1..];
  }

  lemma BlockOpsMean(w: string, pos: nat, tag: string)
    requires pos <= |w|
    ensures WellFormed(w, BlockOps(w, pos, tag))
    ensures ApplyAll(w, BlockOps(w, pos, tag)) == WithBlock(w, pos, tag)
  {
    if LineStart(w, pos) {
      ApplyOne(w, Op.Insert(pos, tag));
    } else {
      ApplyTwo(w, Op.Insert(pos, "\n"), Op.Insert(pos + 1, tag));
      InsertAfterInsert(w, pos, "\n", tag);
    }
  }

  lemma ApplyCut(w: string, pos: nat, len: nat)
    requires pos + len <= |w|
    ensures Apply(w, Op.Delete(pos, len)) == w[..pos] + w[pos + len..]
  {
  }

  lemma CutMeans(w: string, pos: nat, len: nat)
    requires pos + len <= |w|
    ensures WellFormed(w, [Op.Delete(pos, len)])
    ensures ApplyAll(w, [Op.Delete(pos, len)]) == w[..pos] + w[pos + len..]
  {
    hide Apply, ApplyAll, WellFormed;
    ApplyCut(w, pos, len);
    ApplyOne(w, Op.Delete(pos, len));
  }

  lemma EmptyMeans(w: string)
    ensures WellFormed<char>(w, []) && ApplyAll(w, []) == w
  {
  }

  lemma DelOpsMean(w: string, pos: nat, len: nat)
    requires pos <= |w|
    ensures WellFormed(w, DelOps(w, pos, len))
    ensures ApplyAll(w, DelOps(w, pos, len)) == Without(w, pos, len)
  {
    hide Apply, ApplyAll, WellFormed;
    if len == 0 {
      EmptyMeans(w);
    } else {
      var l := Min(len, |w| - pos);
      assert pos + l == Min(pos + len, |w|);
      CutMeans(w, pos, l);
    }
  }

  lemma NewlineOpsMean(w: string, pos: nat)
    requires pos <= |w|
    ensures WellFormed(w, NewlineOps(w, pos))
    ensures ApplyAll(w, NewlineOps(w, pos)) == WithNewline(w, pos)
  {
    if BeforeSpace(w, pos) {
      ApplyTwo(w, Op.Delete(pos, 1), Op.Insert(pos, "\n"));
      InsertAfterDelete(w, pos, "\n");
    } else {
      ApplyOne(w, Op.Insert(pos, "\n"));
    }
  }

  lemma ListOpsMean(w: string, pos: nat, tag: string)
    requires pos <= |w|
    ensures WellFormed(w, ListOps(w, pos, tag))
    ensures ApplyAll(w, ListOps(w, pos, tag)) == WithListItem(w, pos, tag)
  {
    if BeforeSpace(w, pos) {
      var w' := w[..pos] + w[pos + 1..];
      CutMeans(w, pos, 1);
      Append(w, [Op.Delete(pos, 1)], BlockOps(w', pos, tag));
      BlockOpsMean(w', pos, tag);
    } else {
      BlockOpsMean(w, pos, tag);
    }
  }

  lemma PlanAtMeans(w: string, c: Command)
    requires !IsRange(c) && c.pos <= |w|
    ensures PlanAt(w, c).Enqueue? && WellFormed(w, PlanAt(w, c).ops)
    ensures ApplyAll(w, PlanAt(w, c).ops) == Effect(w, 0, 0, c)
  {
    if c.Insert? {
      ApplyOne(w, Op.Insert(c.pos, c.content));
    } else if c.Del? {
      DelOpsMean(w, c.pos, c.len);
    } else if c.Newline? {
      NewlineOpsMean(w, c.pos);
    } else if c.OrderedList? {
      ListOpsMean(w, c.pos, BlockTag(c));
    } else {
      BlockOpsMean(w, c.pos, BlockTag(c));
    }
  }

  lemma RangeMeans(w: string, s: nat, e: nat, open: string, close: string)
    requires s <= e <= |w|
    ensures WellFormed(w, [Op.Insert(e, close), Op.Insert(s, open)])
    ensures ApplyAll(w, [Op.Insert(e, close), Op.Insert(s, open)]) == Wrapped(w, s, e, open, close)
  {
    ApplyTwo(w, Op.Insert(e, close), Op.Insert(s, open));
    InsertBeforeInsert(w, s, e, open, close);
  }

  /** The carried-over range of a range command is a range of the working text. */
  lemma CarriedRange(d: Doc, start: nat, end: nat)
    requires Valid(d) && start < end <= |d.committed|
    requires Transform(d.ops, start).Some? && Transform(d.ops, end).Some?
    ensures Transform(d.ops, start).value <= Transform(d.ops, end).value <= |Working(d)|
  {
    TransformMonotone(d.ops, start, end);
    TransformBounded(d.committed, d.ops, end);
  }

  // ----- the main results

  /** A command succeeds exactly when the document accepts it, and then the working text becomes its effect. */
  lemma ExecMeans(d: Doc, version: Version, c: Command)
    requires Valid(d)
    ensures Exec(d, version, c).0.Success? <==> Accepts(d, version, c)
    ensures Accepts(d, version, c) ==>
              var s := if IsRange(c) then Transform(d.ops, c.start).value else 0;
              var e := if IsRange(c) then Transform(d.ops, c.end).value else 0;
              && (IsRange(c) ==> s <= e <= |Working(d)|)
              && Working(Exec(d, version, c).1) == Effect(Working(d), s, e, c)
  {
    if Accepts(d, version, c) {
      if IsRange(c) {
        var s, e := Transform(d.ops, c.start).value, Transform(d.ops, c.end).value;
        CarriedRange(d, c.start, c.end);
        RangeMeans(Working(d), s, e, Opening(c), Closing(c));
      } else {
        PlanAtMeans(Working(d), c);
      }
      Append(d.committed, d.ops, PlanOf(d, version, c).ops);
    }
  }

  /** Which refusal a command gets, in the order in which the engine checks. */
  lemma RefusalIs(d: Doc, version: Version, c: Command)
    requires Valid(d) && !Accepts(d, version, c)
    ensures Exec(d, version, c).1 == d
    ensures Exec(d, version, c).0 ==
            if c.Heading? && !(1 <= c.level <= 3) then InvalidCursorPos
            else if version != d.version then OutdatedVersion
            else if IsRange(c) && c.start < c.end <= |d.committed| then DeletedPosition
            else InvalidCursorPos
  {
  }

  /** Editing keeps the queue well-formed, the committed text and the version. */
  lemma ExecKeepsValid(d: Doc, version: Version, c: Command)
    requires Valid(d)
    ensures Valid(Exec(d, version, c).1)
    ensures Exec(d, version, c).1.committed == d.committed && Exec(d, version, c).1.version == d.version
    ensures d.ops <= Exec(d, version, c).1.ops
    ensures !Exec(d, version, c).0.Success? ==> Exec(d, version, c).1 == d
  {
    if Accepts(d, version, c) {
      if IsRange(c) {
        var s, e := Transform(d.ops, c.start).value, Transform(d.ops, c.end).value;
        CarriedRange(d, c.start, c.end);
        RangeMeans(Working(d), s, e, Opening(c), Closing(c));
      } else {
        PlanAtMeans(Working(d), c);
      }
      Append(d.committed, d.ops, PlanOf(d, version, c).ops);
    }
  }

  /** Committed texts are normal, so a commit without pending operations changes only the version. */
  lemma CommitKeepsValid(d: Doc)
    ensures Valid(Commit(d)) && Working(Commit(d)) == Commit(d).committed
    ensures Valid(d) && d.ops == [] ==> Commit(d) == d.(version := NextVersion(d.version))
  {
    RenumberIdempotent(Working(d));
  }

  // ----- deletions in machine arithmetic

  /** The length that a deletion queues in a text of n characters when sizes are added modulo 2^64. */
  function QueuedLength(n: nat, pos: nat, len: nat): nat
    requires pos <= n
  {
    if (pos + len) % SIZE_MODULUS > n then n - pos else len
  }

  lemma QueuedLengthFits(n: nat, pos: nat, len: nat)
    requires pos <= n < SIZE_MODULUS && 0 < len < SIZE_MODULUS
    ensures pos + QueuedLength(n, pos, len) <= n <==> pos + len < SIZE_MODULUS
    ensures pos + len < SIZE_MODULUS ==> QueuedLength(n, pos, len) == Min(len, n - pos)
  {
    assert (pos + len) % SIZE_MODULUS == if pos + len < SIZE_MODULUS then pos + len else pos + len - SIZE_MODULUS;
  }

  /** In machine arithmetic a deletion keeps the queue well-formed exactly when its end does not overflow, and
      then it queues what the document engine on unbounded numbers queues. */
  lemma DeletionStaysInBoundsIff(d: Doc, pos: nat, len: nat)
    requires Valid(d) && pos <= |Working(d)| < SIZE_MODULUS && 0 < len < SIZE_MODULUS
    ensures var queued := [Op.Delete(pos, QueuedLength(|Working(d)|, pos, len))];
            && (WellFormed(d.committed, d.ops + queued) <==> pos + len < SIZE_MODULUS)
            && (pos + len < SIZE_MODULUS ==> PlanOf(d, d.version, Command.Del(pos, len)) == Enqueue(queued))
  {
    hide ApplyAll, WellFormed, Transform;
    QueuedLengthFits(|Working(d)|, pos, len);
    Snoc(d.committed, d.ops, Op.Delete(pos, QueuedLength(|Working(d)|, pos, len)), 0);
  }

  /** The smallest overflow: one character into a text of two, with the greatest length. */
  lemma OverflowingDeletion()
    ensures var d := Doc("ab", [], 0);
            && QueuedLength(|Working(d)|, 1, SIZE_MODULUS - 1) == SIZE_MODULUS - 1
            && !WellFormed(d.committed, [Op.Delete(1, SIZE_MODULUS - 1)])
            && PlanOf(d, 0, Command.Del(1, SIZE_MODULUS - 1)) == Enqueue([Op.Delete(1, 1)])
  {
    ApplyOne("ab", Op.Delete(1, SIZE_MODULUS - 1));
  }

  lemma EmptyIsValid()
    ensures Valid(EMPTY) && Working(EMPTY) == ""
  {
    assert Renumber("") == "";
  }
}
