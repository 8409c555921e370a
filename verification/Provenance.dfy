/** Preservation of intent: a second reading of the pending queue in which every character of the
    working text remembers whether it comes from the committed text, and from where. */
module Provenance {
  import opened Wrappers
  import opened Ops

  datatype Cell = Kept(index: nat, ch: char) | Fresh(ch: char)

  function Tag(committed: string): seq<Cell> {
    seq(|committed|, (i: nat) requires i < |committed| => Kept(i, committed[i]))
  }

  function FreshCells(data: string): seq<Cell> {
    seq(|data|, (i: nat) requires i < |data| => Fresh(data[i]))
  }

  function TagOp(op: Op<char>): Op<Cell> {
    match op
    case Insert(pos, data) => Insert(pos, FreshCells(data))
    case Delete(pos, len) => Delete(pos, len)
  }

  function TagOps(ops: seq<Op<char>>): seq<Op<Cell>> {
    seq(|ops|, (i: nat) requires i < |ops| => TagOp(ops[i]))
  }

  /** The working text with provenance. */
  function Traced(committed: string, ops: seq<Op<char>>): seq<Cell> {
    ApplyAll(Tag(committed), TagOps(ops))
  }

  function Erase(cells: seq<Cell>): string {
    seq(|cells|, (i: nat) requires i < |cells| => cells[i].ch)
  }

  /** The committed character at index j is still in the working text. */
  predicate Survives(committed: string, ops: seq<Op<char>>, j: nat) {
    exists k :: 0 <= k < |Traced(committed, ops)| && IsKept(Traced(committed, ops)[k], j)
  }

  predicate IsKept(cell: Cell, j: nat) {
    cell.Kept? && cell.index == j
  }

  /** Position p splits the cells at committed gap i: kept characters from before gap i lie before p,
      the others at or after it. */
  predicate Splits(cells: seq<Cell>, p: nat, i: nat) {
    && p <= |cells|
    && (forall k :: 0 <= k < p && cells[k].Kept? ==> cells[k].index < i)
    && (forall k :: p <= k < |cells| && cells[k].Kept? ==> i <= cells[k].index)
  }

  /** Cells are genuine copies of committed characters, each at most once and in committed order. */
  predicate Faithful(committed: string, cells: seq<Cell>) {
    && (forall k :: 0 <= k < |cells| && cells[k].Kept? ==>
          cells[k].index < |committed| && cells[k].ch == committed[cells[k].index])
    && (forall k, l :: 0 <= k < l < |cells| && cells[k].Kept? && cells[l].Kept? ==> cells[k].index < cells[l].index)
  }

  lemma NothingTraced(committed: string, ops: seq<Op<char>>)
    requires |ops| == 0
    ensures Traced(committed, ops) == Tag(committed)
  {
  }

  lemma TracedSnoc(committed: string, ops: seq<Op<char>>)
    requires |ops| > 0
    ensures Traced(committed, ops) == Apply(Traced(committed, ops[..|ops| - 1]), TagOp(ops[|ops| - 1]))
  {
    assert TagOps(ops)[..|ops| - 1] == TagOps(ops[..|ops| - 1]);
  }

  /** Tracing is only an annotation: erasing it gives the working text. */
  lemma {:induction false} ErasesToWorking(committed: string, ops: seq<Op<char>>)
    ensures Erase(Traced(committed, ops)) == ApplyAll(committed, ops)
    decreases |ops|
  {
    if |ops| == 0 {
    } else {
      TracedSnoc(committed, ops);
      ErasesToWorking(committed, ops[..|ops| - 1]);
      EraseApply(Traced(committed, ops[..|ops| - 1]), ops[|ops| - 1]);
    }
  }

  lemma TracedLength(committed: string, ops: seq<Op<char>>)
    ensures |Traced(committed, ops)| == |ApplyAll(committed, ops)|
  {
    ErasesToWorking(committed, ops);
  }

  lemma EraseConcat(a: seq<Cell>, b: seq<Cell>)
    ensures Erase(a + b) == Erase(a) + Erase(b)
  {
  }

  lemma EraseSlice(cells: seq<Cell>, i: nat, j: nat)
    requires i <= j <= |cells|
    ensures Erase(cells[i..j]) == Erase(cells)[i..j]
  {
  }

  /** Erasing cells of which a stretch is replaced. */
  lemma EraseSplice(cells: seq<Cell>, p: nat, added: seq<Cell>, q: nat)
    requires p <= q <= |cells|
    ensures Erase(cells[..p] + added + cells[q..]) == Erase(cells)[..p] + Erase(added) + Erase(cells)[q..]
  {
    EraseSlice(cells, 0, p);
    EraseSlice(cells, q, |cells|);
    EraseConcat(cells[..p] + added, cells[q..]);
    EraseConcat(cells[..p], added);
  }

  lemma EraseApply(cells: seq<Cell>, op: Op<char>)
    ensures Erase(Apply(cells, TagOp(op))) == Apply(Erase(cells), op)
  {
    var p := Min(op.pos, |cells|);
    match op
    case Insert(_, data) =>
      EraseSplice(cells, p, FreshCells(data), p);
      assert Erase(FreshCells(data)) == data;
    case Delete(_, len) =>
      var q := p + (if p + len > |cells| then |cells| - p else len);
      EraseSplice(cells, p, [], q);
      WithoutAddition(cells[..p], cells[q..]);
      WithoutAddition(Erase(cells)[..p], Erase(cells)[q..]);
  }

  lemma WithoutAddition<T>(a: seq<T>, b: seq<T>)
    ensures a + [] + b == a + b
  {
  }

  lemma {:induction false} SurvivorsAreFaithful(committed: string, ops: seq<Op<char>>)
    ensures Faithful(committed, Traced(committed, ops))
    decreases |ops|
  {
    if |ops| == 0 {
    } else {
      TracedSnoc(committed, ops);
      SurvivorsAreFaithful(committed, ops[..|ops| - 1]);
      ApplyKeepsFaithful(committed, Traced(committed, ops[..|ops| - 1]), ops[|ops| - 1]);
    }
  }

  lemma ApplyKeepsFaithful(committed: string, cells: seq<Cell>, op: Op<char>)
    requires Faithful(committed, cells)
    ensures Faithful(committed, Apply(cells, TagOp(op)))
  {
    var p := Min(op.pos, |cells|);
    match op
    case Insert(_, data) =>
      WeavingKeepsFaithful(committed, cells, p, FreshCells(data), p);
    case Delete(_, len) =>
      var l := if p + len > |cells| then |cells| - p else len;
      assert cells[..p] + [] + cells[p + l..] == cells[..p] + cells[p + l..];
      WeavingKeepsFaithful(committed, cells, p, [], p + l);
  }

  /** Replacing a stretch of cells by fresh ones keeps the others genuine and in order. */
  lemma WeavingKeepsFaithful(committed: string, cells: seq<Cell>, p: nat, added: seq<Cell>, q: nat)
    requires Faithful(committed, cells) && p <= q <= |cells|
    requires forall k :: 0 <= k < |added| ==> added[k].Fresh?
    ensures Faithful(committed, cells[..p] + added + cells[q..])
  {
    var after := cells[..p] + added + cells[q..];
    var shift := q - p - |added|;
    forall k, l | 0 <= k < l < |after| && after[k].Kept? && after[l].Kept?
      ensures after[k].index < after[l].index
    {
      var k0 := if k < p then k else k + shift;
      var l0 := if l < p then l else l + shift;
      assert after[k] == cells[k0] && after[l] == cells[l0] && k0 < l0;
    }
    forall k | 0 <= k < |after| && after[k].Kept?
      ensures after[k].index < |committed| && after[k].ch == committed[after[k].index]
    {
      var k0 := if k < p then k else k + shift;
      assert after[k] == cells[k0];
    }
  }

  /** Intent preservation: the transformed position of committed gap i separates exactly the
      surviving characters that stood before gap i from those that stood after it. */
  lemma {:induction false} TransformSplits(committed: string, ops: seq<Op<char>>, i: nat)
    requires WellFormed(committed, ops) && i <= |committed|
    requires Transform(ops, i).Some?
    ensures Splits(Traced(committed, ops), Transform(ops, i).value, i)
    decreases |ops|
  {
    if |ops| == 0 {
    } else {
      var init, last := ops[..|ops| - 1], ops[|ops| - 1];
      TracedSnoc(committed, ops);
      TransformSplits(committed, init, i);
      ErasesToWorking(committed, init);
      StepSplits(Traced(committed, init), last, Transform(init, i).value, i);
    }
  }

  lemma StepSplits(cells: seq<Cell>, op: Op<char>, p: nat, i: nat)
    requires Splits(cells, p, i) && InBounds(|cells|, op)
    requires TransformStep(op, p).Some?
    ensures Splits(Apply(cells, TagOp(op)), TransformStep(op, p).value, i)
  {
    var after, q := Apply(cells, TagOp(op)), TransformStep(op, p).value;
    match op
    case Insert(pos, data) =>
      assert after == cells[..pos] + FreshCells(data) + cells[pos..];
    case Delete(pos, len) =>
      assert after == cells[..pos] + cells[pos + len..];
  }

  /** A gap is never lost while the character on its left survives, and it stays glued to that
      character; the gap at the start of the document never moves. */
  lemma {:induction false} TransformFollowsLeftNeighbour(committed: string, ops: seq<Op<char>>, i: nat, k: nat)
    requires WellFormed(committed, ops) && 0 < i <= |committed|
    requires k < |Traced(committed, ops)| && IsKept(Traced(committed, ops)[k], i - 1)
    ensures Transform(ops, i) == Some(k + 1)
    decreases |ops|
  {
    hide Apply, ApplyAll, TransformStep, Traced;
    if |ops| == 0 {
      NothingTraced(committed, ops);
    } else {
      var init, last := ops[..|ops| - 1], ops[|ops| - 1];
      TracedSnoc(committed, ops);
      TracedLength(committed, init);
      var k' := StepBack(Traced(committed, init), last, k, i - 1);
      TransformFollowsLeftNeighbour(committed, init, i, k');
    }
  }

  /** Where a kept cell was before an operation, and that the gap on its right moved along with it. */
  lemma StepBack(cells: seq<Cell>, op: Op<char>, k: nat, j: nat) returns (k': nat)
    requires InBounds(|cells|, op)
    requires k < |Apply(cells, TagOp(op))| && IsKept(Apply(cells, TagOp(op))[k], j)
    ensures k' < |cells| && IsKept(cells[k'], j)
    ensures TransformStep(op, k' + 1) == Some(k + 1)
  {
    match op
    case Insert(pos, data) =>
      k' := if k < pos then k else k - |data|;
    case Delete(pos, len) =>
      k' := if k < pos then k else k + len;
  }

  lemma {:induction false} TransformStart(ops: seq<Op<char>>)
    ensures Transform(ops, 0) == Some(0)
    decreases |ops|
  {
    if |ops| == 0 {
    } else {
      TransformStart(ops[..|ops| - 1]);
    }
  }

  /** A position is rejected as deleted only when the character on its left is gone. */
  lemma LostOnlyIfLeftNeighbourDeleted(committed: string, ops: seq<Op<char>>, i: nat)
    requires WellFormed(committed, ops) && i <= |committed|
    requires Transform(ops, i).None?
    ensures 0 < i && !Survives(committed, ops, i - 1)
  {
    if i == 0 {
      TransformStart(ops);
    } else if Survives(committed, ops, i - 1) {
      var k :| 0 <= k < |Traced(committed, ops)| && IsKept(Traced(committed, ops)[k], i - 1);
      TransformFollowsLeftNeighbour(committed, ops, i, k);
    }
  }

  /** A position is rejected exactly when one pending deletion removed the characters on both sides of the
      place to which the operations before it had carried the position. */
  lemma {:induction false} LostIffStrictlyInside(ops: seq<Op<char>>, i: nat)
    ensures Transform(ops, i).None? <==> exists k :: 0 <= k < |ops| && StrictlyInside(ops, k, i)
    decreases |ops|
  {
    if |ops| == 0 {
    } else {
      var init := ops[..|ops| - 1];
      LostIffStrictlyInside(init, i);
      assert forall k :: 0 <= k < |init| ==> init[..k] == ops[..k];
      assert forall k :: 0 <= k < |init| ==> (StrictlyInside(init, k, i) <==> StrictlyInside(ops, k, i));
      assert Transform(ops, i).None? && Transform(init, i).Some? ==> StrictlyInside(ops, |ops| - 1, i);
      if k :| 0 <= k < |ops| && StrictlyInside(ops, k, i) {
        if k < |init| {
          assert StrictlyInside(init, k, i);
        }
      }
    }
  }

  predicate StrictlyInside(ops: seq<Op<char>>, k: nat, i: nat)
    requires k < |ops|
  {
    && Transform(ops[..k], i).Some?
    && ops[k].Delete?
    && ops[k].pos < Transform(ops[..k], i).value < ops[k].pos + ops[k].len
  }

  /** So a deleted neighbourhood does not decide: a position between two characters that went in two
      separate deletions is still accepted ... */
  lemma DeletedNeighboursCanBeAccepted()
    ensures var two: seq<Op<char>> := [Op.Delete(0, 1), Op.Delete(0, 1)];
            WellFormed("ab", two) && Transform(two, 1) == Some(0) &&
            !Survives("ab", two, 0) && !Survives("ab", two, 1)
  {
    var first: Op<char> := Op.Delete(0, 1);
    var two := [first, first];
    assert two[..1] == [first] && [first][..0] == [];
    assert ApplyAll("ab", [first]) == "b" && Transform([first], 1) == Some(0);
    assert WellFormed("ab", [first]);
    ErasesToWorking("ab", two);
    assert |Traced("ab", two)| == |ApplyAll("ab", two)| == 0;
  }

  /** ... and one whose right neighbour survives can be rejected. */
  lemma SurvivingNeighbourCanBeRejected()
    ensures var mixed: seq<Op<char>> := [Op.Insert(1, "x"), Op.Delete(0, 2)];
            WellFormed("ab", mixed) && Transform(mixed, 1) == None && Survives("ab", mixed, 1)
  {
    var grow: Op<char>, cut: Op<char> := Op.Insert(1, "x"), Op.Delete(0, 2);
    var mixed := [grow, cut];
    assert mixed[..1] == [grow] && [grow][..0] == [];
    assert Apply("ab", grow) == "a" + "x" + "b";
    assert ApplyAll("ab", [grow]) == "axb" && Transform([grow], 1) == Some(1);
    assert WellFormed("ab", [grow]);
    TracedSnoc("ab", mixed);
    TracedSnoc("ab", [grow]);
    assert Traced("ab", []) == [Kept(0, 'a'), Kept(1, 'b')];
    assert Traced("ab", [grow]) == [Kept(0, 'a'), Fresh('x'), Kept(1, 'b')];
    assert Traced("ab", mixed) == [Kept(1, 'b')];
    assert IsKept(Traced("ab", mixed)[0], 1);
  }
}
