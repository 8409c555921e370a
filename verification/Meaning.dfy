/** What the commands promise about the text, beyond the letter of their effect. */
module Meaning {
  import opened Wrappers
  import opened Text
  import opened Ops
  import opened Renumbering
  import opened Engine
  import opened Provenance
  import opened Tombstones

  predicate IsBlock(c: Command) {
    c.Heading? || c.Blockquote? || c.OrderedList? || c.UnorderedList? || c.HorizontalRule?
  }

  /** The text a block command works on: a list item first swallows a space at its position. */
  function BlockBase(w: string, c: Command): string
    requires IsBlock(c)
  {
    if c.OrderedList? && BeforeSpace(w, c.pos) then w[..c.pos] + w[c.pos + 1..] else w
  }

  /** Where the tag of a block command ends up. */
  function BlockStart(w: string, c: Command): nat
    requires IsBlock(c)
  {
    if LineStart(BlockBase(w, c), c.pos) then c.pos else c.pos + 1
  }

  /** The tag stands at the start of a line of w, between what stood before and behind a position of base. */
  predicate OpensLine(w: string, start: nat, tag: string, base: string, pos: nat) {
    && pos <= |base| && pos <= start && start + |tag| <= |w|
    && LineStart(w, start)
    && w[start..start + |tag|] == tag
    && w[..pos] == base[..pos]
    && w[start + |tag|..] == base[pos..]
  }

  lemma PlainBlockMeans(d: Doc, version: Version, c: Command)
    requires Valid(d) && IsBlock(c) && !c.OrderedList? && Accepts(d, version, c)
    ensures c.pos <= |BlockBase(Working(d), c)|
    ensures Working(Exec(d, version, c).1) == WithBlock(BlockBase(Working(d), c), c.pos, BlockTag(c))
  {
    ExecMeans(d, version, c);
  }

  lemma ListItemMeans(d: Doc, version: Version, pos: nat)
    requires Valid(d) && Accepts(d, version, Command.OrderedList(pos))
    ensures var c := Command.OrderedList(pos);
            && pos <= |BlockBase(Working(d), c)|
            && Working(Exec(d, version, c).1) == WithBlock(BlockBase(Working(d), c), pos, BlockTag(c))
  {
    ExecMeans(d, version, Command.OrderedList(pos));
  }

  lemma BlockMeans(d: Doc, version: Version, c: Command)
    requires Valid(d) && IsBlock(c) && Accepts(d, version, c)
    ensures c.pos <= |BlockBase(Working(d), c)|
    ensures Working(Exec(d, version, c).1) == WithBlock(BlockBase(Working(d), c), c.pos, BlockTag(c))
  {
    if c.OrderedList? {
      ListItemMeans(d, version, c.pos);
    } else {
      PlainBlockMeans(d, version, c);
    }
  }

  lemma WithBlockParts(w: string, pos: nat, tag: string)
    requires pos <= |w|
    ensures var start := if LineStart(w, pos) then pos else pos + 1;
            OpensLine(WithBlock(w, pos, tag), start, tag, w, pos)
  {
    if LineStart(w, pos) {
      PartsOf(w[..pos], tag, w[pos..]);
    } else {
      PartsOf(w[..pos] + "\n", tag, w[pos..]);
      assert (w[..pos] + "\n")[..pos] == w[..pos];
    }
  }

  lemma PartsOf(head: string, tag: string, rest: string)
    ensures var r := head + tag + rest;
            && r[..|head|] == head && r[|head|..|head| + |tag|] == tag && r[|head| + |tag|..] == rest
            && (forall i :: 0 <= i <= |head| ==> r[..i] == head[..i])
            && (|head| > 0 ==> r[|head| - 1] == head[|head| - 1])
  {
  }

  /** The tag of a block command opens a line, and the text around it is kept. */
  lemma BlockLandsAtLineStart(d: Doc, version: Version, c: Command)
    requires Valid(d) && IsBlock(c) && Accepts(d, version, c)
    ensures var base := BlockBase(Working(d), c);
            var start := BlockStart(Working(d), c);
            OpensLine(Working(Exec(d, version, c).1), start, BlockTag(c), base, c.pos)
  {
    BlockMeans(d, version, c);
    WithBlockParts(BlockBase(Working(d), c), c.pos, BlockTag(c));
  }

  lemma NewItemTag(d: Doc, version: Version, pos: nat)
    requires Valid(d) && Accepts(d, version, Command.OrderedList(pos))
    ensures var c := Command.OrderedList(pos);
            var start := BlockStart(Working(d), c);
            var w := Working(Exec(d, version, c).1);
            start + 3 <= |w| && LineStart(w, start) && w[start..start + 3] == "1. "
  {
    hide Exec, Working, BlockStart, BlockBase, LineStart;
    BlockLandsAtLineStart(d, version, Command.OrderedList(pos));
  }

  /** After the next commit a new list item carries its place in the list it joined. */
  lemma NewListItemIsNumbered(d: Doc, version: Version, pos: nat)
    requires Valid(d) && Accepts(d, version, Command.OrderedList(pos))
    ensures var c := Command.OrderedList(pos);
            var start := BlockStart(Working(d), c);
            var t := Commit(Exec(d, version, c).1).committed;
            && start < |t| && LineStart(t, start) && OrderedAt(t, start)
            && t[start] == Digit(Min(9, 1 + RunAbove(t, start)))
  {
    hide Exec, Working, RunAbove, LineStart, OrderedAt, Commit, BlockStart;
    var c := Command.OrderedList(pos);
    var d', start := Exec(d, version, c).1, BlockStart(Working(d), c);
    NewItemTag(d, version, pos);
    NumberAfterCommit(d', start, "1. ");
  }

  lemma NumberAfterCommit(d: Doc, start: nat, tag: string)
    requires start + 3 <= |Working(d)| && LineStart(Working(d), start)
    requires Working(d)[start..start + 3] == tag && tag == "1. "
    ensures var t := Commit(d).committed;
            && start < |t| && LineStart(t, start) && OrderedAt(t, start)
            && t[start] == Digit(Min(9, 1 + RunAbove(t, start)))
  {
    OpensItem(Working(d), start);
    KeepsShapeAt(Working(d), start);
    RenumberKeepsRuns(Working(d), start);
  }

  lemma OpensItem(w: string, start: nat)
    requires start + 3 <= |w| && w[start..start + 3] == "1. "
    ensures OrderedAt(w, start)
  {
    var item := w[start..start + 3];
    assert item[0] == '1' && item[1] == '.' && item[2] == ' ';
  }

  /** A range command puts its markers around exactly the surviving committed characters of its range, and
      around exactly those inserted ones that stand between the two gaps of its range. */
  lemma RangeEnclosesItsCharacters(d: Doc, version: Version, c: Command)
    requires Valid(d) && IsRange(c) && Accepts(d, version, c)
    ensures var s, e := Transform(d.ops, c.start).value, Transform(d.ops, c.end).value;
            var before := Traced(d.committed, d.ops);
            var after := Traced(d.committed, Exec(d, version, c).1.ops);
            && s <= e <= |before|
            && after == before[..s] + FreshCells(Opening(c)) + before[s..e] + FreshCells(Closing(c)) + before[e..]
            && forall k :: 0 <= k < |before| && before[k].Kept? ==>
                 (s <= k < e <==> c.start <= before[k].index < c.end)
    ensures var stones := Stones(d.committed, d.ops);
            var s, e := Transform(d.ops, c.start).value, Transform(d.ops, c.end).value;
            var g, h := GapIndex(stones, c.start), GapIndex(stones, c.end);
            && g <= h && s <= e <= |Traced(d.committed, d.ops)|
            && Traced(d.committed, d.ops)[s..e] == Living(stones[g..h])
  {
    var s, e := Transform(d.ops, c.start).value, Transform(d.ops, c.end).value;
    var before := Traced(d.committed, d.ops);
    CarriedRange(d, c.start, c.end);
    ErasesToWorking(d.committed, d.ops);
    assert |before| == |Working(d)|;
    TransformSplits(d.committed, d.ops, c.start);
    TransformSplits(d.committed, d.ops, c.end);
    WrapTraced(d.committed, d.ops, s, e, Opening(c), Closing(c));
    TracedBetweenGaps(d.committed, d.ops, c.start, c.end);
  }

  /** The documents after INSERT 1 x and DEL 0 2, and after DEL 0 1 twice, on "ab". */
  function InsertedThenCut(v: Version): Doc {
    Exec(Exec(Doc("ab", [], v), v, Command.Insert(1, "x")).1, v, Command.Del(0, 2)).1
  }

  function CutTwice(v: Version): Doc {
    Exec(Exec(Doc("ab", [], v), v, Command.Del(0, 1)).1, v, Command.Del(0, 1)).1
  }

  lemma InsertedThenCutQueues(v: Version)
    ensures InsertedThenCut(v) == Doc("ab", [Op.Insert(1, "x"), Op.Delete(0, 2)], v)
  {
    var d := Exec(Doc("ab", [], v), v, Command.Insert(1, "x")).1;
    assert d.ops == [Op.Insert(1, "x")];
    ApplyOne("ab", Op.Insert(1, "x"));
    assert |Apply("ab", Op.Insert(1, "x"))| == 3;
    assert PlanOf(d, v, Command.Del(0, 2)) == Enqueue([Op.Delete(0, 2)]);
  }

  lemma CutTwiceQueues(v: Version)
    ensures CutTwice(v) == Doc("ab", [Op.Delete(0, 1), Op.Delete(0, 1)], v)
  {
    var d := Exec(Doc("ab", [], v), v, Command.Del(0, 1)).1;
    assert d.ops == [Op.Delete(0, 1)];
    ApplyOne("ab", Op.Delete(0, 1));
    assert |Apply("ab", Op<char>.Delete(0, 1))| == 1;
    assert PlanOf(d, v, Command.Del(0, 1)) == Enqueue([Op.Delete(0, 1)]);
  }

  /** Commands reach a queue on which a range is rejected although the character it starts at survives ... */
  lemma RangeOnSurvivorRejected(v: Version)
    ensures var d := InsertedThenCut(v);
            Exec(d, v, Command.Bold(1, 2)) == (DeletedPosition, d) && Survives(d.committed, d.ops, 1)
  {
    InsertedThenCutQueues(v);
    SurvivingNeighbourCanBeRejected();
  }

  /** ... and one on which a range is accepted although both of its characters are gone. */
  lemma RangeOnDeletedAccepted(v: Version)
    ensures var d := CutTwice(v);
            && Exec(d, v, Command.Bold(0, 1)).0 == Success
            && !Survives(d.committed, d.ops, 0) && !Survives(d.committed, d.ops, 1)
  {
    CutTwiceQueues(v);
    TransformStart(CutTwice(v).ops);
    DeletedNeighboursCanBeAccepted();
  }

  lemma WrapTraced(committed: string, ops: seq<Op<char>>, s: nat, e: nat, open: string, close: string)
    requires s <= e <= |Traced(committed, ops)|
    ensures var before := Traced(committed, ops);
            Traced(committed, ops + [Op.Insert(e, close), Op.Insert(s, open)]) ==
            before[..s] + FreshCells(open) + before[s..e] + FreshCells(close) + before[e..]
  {
    var before := Traced(committed, ops);
    var a, b := Op.Insert(e, close), Op.Insert(s, open);
    assert TagOps(ops + [a, b]) == TagOps(ops) + [TagOp(a), TagOp(b)];
    Append(Tag(committed), TagOps(ops), [TagOp(a), TagOp(b)]);
    ApplyTwo(before, TagOp(a), TagOp(b));
    InsertBeforeInsert(before, s, e, FreshCells(open), FreshCells(close));
  }
}
