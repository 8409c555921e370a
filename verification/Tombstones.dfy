/** A second account of carried positions that never moves them: deleted characters stay in the text as
    tombstones, a gap of the committed text stays right behind its left neighbour, and its position is what one
    counts in the end. */
module Tombstones {
  import opened Wrappers
  import opened Ops
  import opened Provenance

  datatype Stone = Stone(cell: Cell, live: bool)

  function LiveCount(s: seq<Stone>): nat {
    if |s| == 0 then 0 else (if s[0].live then 1 else 0) + LiveCount(s[1..])
  }

  /** The index of the live cell with the given number; the end of the text when there is none. */
  function IndexOfLive(s: seq<Stone>, n: nat): (k: nat)
    ensures k <= |s|
  {
    if |s| == 0 then 0
    else if s[0].live && n == 0 then 0
    else 1 + IndexOfLive(s[1..], if s[0].live then n - 1 else n)
  }

  function Standing(cells: seq<Cell>): seq<Stone> {
    seq(|cells|, (i: nat) requires i < |cells| => Stone(cells[i], true))
  }

  /** Marks the live cells with numbers from pos to pos + len as deleted. */
  function Bury(s: seq<Stone>, pos: nat, len: nat): (r: seq<Stone>)
    ensures |r| == |s|
  {
    seq(|s|, (j: nat) requires j < |s| =>
      if s[j].live && pos <= LiveCount(s[..j]) < pos + len then s[j].(live := false) else s[j])
  }

  /** An insertion goes directly before the live cell at its position, a deletion only marks. */
  function Carve(s: seq<Stone>, op: Op<char>): seq<Stone> {
    match op
    case Insert(pos, data) =>
      var k := IndexOfLive(s, pos);
      s[..k] + Standing(FreshCells(data)) + s[k..]
    case Delete(pos, len) => Bury(s, pos, len)
  }

  /** The text with all that was ever in it. */
  function Stones(committed: string, ops: seq<Op<char>>): seq<Stone> {
    if |ops| == 0 then Standing(Tag(committed))
    else Carve(Stones(committed, ops[..|ops| - 1]), ops[|ops| - 1])
  }

  /** Gap i of the committed text stands right behind committed cell i - 1. */
  function GapIndex(s: seq<Stone>, i: nat): (g: nat)
    ensures g <= |s|
  {
    if i == 0 || |s| == 0 then 0
    else if IsKept(s[0].cell, i - 1) then 1
    else 1 + GapIndex(s[1..], i)
  }

  /** One deletion marks the nearest live cells on both sides of gap g. */
  ghost predicate Swallows(s: seq<Stone>, op: Op<char>, g: nat) {
    op.Delete? && exists l, r :: 0 <= l < g <= r < |s| && Neighbours(s, l, r) && Dies(s, op, l) && Dies(s, op, r)
  }

  predicate Dies(s: seq<Stone>, op: Op<char>, j: nat)
    requires op.Delete? && j < |s|
  {
    s[j].live && !Bury(s, op.pos, op.len)[j].live
  }

  /** Two live cells with no live cell between them. */
  predicate Neighbours(s: seq<Stone>, l: nat, r: nat)
    requires l < r < |s|
  {
    s[l].live && s[r].live && forall m :: l < m < r ==> !s[m].live
  }

  // ----- counting live cells

  lemma {:induction false} LiveCountConcat(a: seq<Stone>, b: seq<Stone>)
    ensures LiveCount(a + b) == LiveCount(a) + LiveCount(b)
  {
    if |a| == 0 {
      assert a + b == b;
    } else {
      assert (a + b)[1..] == a[1..] + b;
      LiveCountConcat(a[1..], b);
    }
  }

  /** Counting up to an index and past it. */
  lemma LiveCountNext(s: seq<Stone>, j: nat)
    requires j < |s|
    ensures LiveCount(s[..j + 1]) == LiveCount(s[..j]) + (if s[j].live then 1 else 0)
  {
    assert s[..j + 1] == s[..j] + [s[j]];
    LiveCountConcat(s[..j], [s[j]]);
    assert [s[j]][1..] == [];
  }

  lemma LiveCountSplit(s: seq<Stone>, i: nat, j: nat)
    requires i <= j <= |s|
    ensures LiveCount(s[..j]) == LiveCount(s[..i]) + LiveCount(s[i..j])
  {
    assert s[..j] == s[..i] + s[i..j];
    LiveCountConcat(s[..i], s[i..j]);
  }

  lemma {:induction false} LiveCountStanding(cells: seq<Cell>)
    ensures LiveCount(Standing(cells)) == |cells|
    decreases |cells|
  {
    if |cells| == 0 {
    } else {
      assert Standing(cells)[1..] == Standing(cells[1..]);
      LiveCountStanding(cells[1..]);
    }
  }

  lemma {:induction false} IndexOfLiveMeans(s: seq<Stone>, n: nat)
    requires n <= LiveCount(s)
    ensures var k := IndexOfLive(s, n);
            LiveCount(s[..k]) == n && (k < |s| ==> s[k].live) && (k == |s| <==> n == LiveCount(s))
    decreases |s|
  {
    var k := IndexOfLive(s, n);
    if |s| == 0 {
    } else if s[0].live && n == 0 {
      assert s[..0] == [];
    } else {
      IndexOfLiveMeans(s[1..], if s[0].live then n - 1 else n);
      assert s[..k][1..] == s[1..][..k - 1];
      assert s[1..][..k - 1] == s[1..k];
    }
  }

  /** The live cell number n lies before index g exactly when more than n live cells do. */
  lemma LiveBefore(s: seq<Stone>, n: nat, g: nat)
    requires n <= LiveCount(s) && g <= |s|
    ensures IndexOfLive(s, n) < g <==> n < LiveCount(s[..g])
  {
    var k := IndexOfLive(s, n);
    IndexOfLiveMeans(s, n);
    if k < g {
      LiveCountNext(s, k);
      LiveCountSplit(s, k + 1, g);
    } else {
      LiveCountSplit(s, g, k);
    }
  }

  // ----- the live cells are the traced text

  function Living(s: seq<Stone>): seq<Cell> {
    if |s| == 0 then [] else (if s[0].live then [s[0].cell] else []) + Living(s[1..])
  }

  lemma {:induction false} LivingConcat(a: seq<Stone>, b: seq<Stone>)
    ensures Living(a + b) == Living(a) + Living(b)
  {
    if |a| == 0 {
      assert a + b == b;
    } else {
      var head := if a[0].live then [a[0].cell] else [];
      assert (a + b)[1..] == a[1..] + b;
      LivingConcat(a[1..], b);
      assert Living(a + b) == head + Living(a[1..] + b);
      Assoc(head, Living(a[1..]), Living(b));
    }
  }

  lemma {:induction false} LivingCount(s: seq<Stone>)
    ensures |Living(s)| == LiveCount(s)
  {
    if |s| == 0 {
    } else {
      LivingCount(s[1..]);
    }
  }

  lemma {:induction false} LivingStanding(cells: seq<Cell>)
    ensures Living(Standing(cells)) == cells
    decreases |cells|
  {
    if |cells| == 0 {
    } else {
      assert Standing(cells)[1..] == Standing(cells[1..]);
      LivingStanding(cells[1..]);
    }
  }

  /** The live cells before the one with number n are the first n live cells. */
  lemma LivingSplit(s: seq<Stone>, n: nat)
    requires n <= LiveCount(s)
    ensures n <= |Living(s)|
    ensures var k := IndexOfLive(s, n); Living(s[..k]) == Living(s)[..n] && Living(s[k..]) == Living(s)[n..]
  {
    var k := IndexOfLive(s, n);
    IndexOfLiveMeans(s, n);
    LivingCount(s);
    LivingCount(s[..k]);
    assert s == s[..k] + s[k..];
    LivingConcat(s[..k], s[k..]);
  }

  /** Burying a stretch in the tail of a text, with the numbers counted from the tail. */
  lemma BuryTail(s: seq<Stone>, pos: nat, len: nat)
    requires |s| > 0
    ensures var before := if s[0].live then 1 else 0;
            pos >= before ==> Bury(s, pos, len)[1..] == Bury(s[1..], pos - before, len)
    ensures s[0].live && pos == 0 && len > 0 ==> Bury(s, pos, len)[1..] == Bury(s[1..], 0, len - 1)
  {
    forall j | 1 <= j < |s|
      ensures LiveCount(s[..j]) == (if s[0].live then 1 else 0) + LiveCount(s[1..][..j - 1])
    {
      assert s[..j][1..] == s[1..][..j - 1];
    }
  }

  lemma BuryFirst(s: seq<Stone>, pos: nat, len: nat)
    requires |s| > 0
    ensures Bury(s, pos, len)[0] == if s[0].live && pos == 0 && len > 0 then s[0].(live := false) else s[0]
  {
    assert LiveCount(s[..0]) == 0;
  }

  lemma BuryNothing(s: seq<Stone>, len: nat)
    requires |s| == 0
    ensures Living(Bury(s, 0, len)) == Living(s)[..0] + Living(s)[0..] == []
  {
  }

  lemma {:induction false} LivingBury(s: seq<Stone>, pos: nat, len: nat)
    requires pos + len <= LiveCount(s)
    ensures |Living(s)| == LiveCount(s)
    ensures Living(Bury(s, pos, len)) == Living(s)[..pos] + Living(s)[pos + len..]
    decreases |s|
  {
    hide Bury, Living;
    LivingCount(s);
    if |s| == 0 {
      BuryNothing(s, len);
    } else {
      var buried := Bury(s, pos, len);
      BuryFirst(s, pos, len);
      BuryTail(s, pos, len);
      LivingFirst(s);
      LivingFirst(buried);
      LivingCount(s[1..]);
      if !s[0].live {
        LivingBury(s[1..], pos, len);
      } else if pos > 0 {
        LivingBury(s[1..], pos - 1, len);
        CutFurther([s[0].cell], Living(s[1..]), pos - 1, len);
      } else if len > 0 {
        LivingBury(s[1..], 0, len - 1);
        CutFirst(s[0].cell, Living(s[1..]), len - 1);
      } else {
        NothingBuried(s, 0);
        NothingCut(Living(s));
      }
    }
  }

  lemma LivingFirst(s: seq<Stone>)
    requires |s| > 0
    ensures Living(s) == if s[0].live then [s[0].cell] + Living(s[1..]) else Living(s[1..])
  {
  }

  lemma CutFurther(head: seq<Cell>, rest: seq<Cell>, pos: nat, len: nat)
    requires pos + len <= |rest| && |head| == 1
    ensures (head + rest)[..pos + 1] + (head + rest)[pos + 1 + len..] == head + (rest[..pos] + rest[pos + len..])
  {
  }

  lemma CutFirst(head: Cell, rest: seq<Cell>, len: nat)
    requires len <= |rest|
    ensures ([head] + rest)[..0] + ([head] + rest)[len + 1..] == rest[..0] + rest[len..]
  {
  }

  lemma NothingCut(cells: seq<Cell>)
    ensures cells[..0] + cells[0 + 0..] == cells
  {
  }

  lemma NothingBuried(s: seq<Stone>, pos: nat)
    ensures Bury(s, pos, 0) == s
  {
  }

  lemma WeaveKeepsLiving(s: seq<Stone>, pos: nat, data: string)
    requires pos <= LiveCount(s)
    ensures |Living(s)| == LiveCount(s)
    ensures Living(Carve(s, Op.Insert(pos, data))) == Living(s)[..pos] + FreshCells(data) + Living(s)[pos..]
  {
    var k := IndexOfLive(s, pos);
    var added := Standing(FreshCells(data));
    LivingCount(s);
    LivingSplit(s, pos);
    LivingStanding(FreshCells(data));
    LivingConcat(s[..k] + added, s[k..]);
    LivingConcat(s[..k], added);
  }

  lemma CarveKeepsLiving(s: seq<Stone>, op: Op<char>)
    requires InBounds(LiveCount(s), op)
    ensures Living(Carve(s, op)) == Apply(Living(s), TagOp(op))
  {
    match op
    case Insert(pos, data) => WeaveKeepsLiving(s, pos, data);
    case Delete(pos, len) => LivingBury(s, pos, len);
  }

  /** Without its tombstones the text is the traced working text. */
  lemma {:induction false} LivingStonesAreTraced(committed: string, ops: seq<Op<char>>)
    requires WellFormed(committed, ops)
    ensures Living(Stones(committed, ops)) == Traced(committed, ops)
    ensures LiveCount(Stones(committed, ops)) == |ApplyAll(committed, ops)|
    decreases |ops|
  {
    if |ops| == 0 {
      LivingStanding(Tag(committed));
    } else {
      var init := ops[..|ops| - 1];
      LivingStonesAreTraced(committed, init);
      TracedSnoc(committed, ops);
      CarveKeepsLiving(Stones(committed, init), ops[|ops| - 1]);
    }
    LivingCount(Stones(committed, ops));
    ErasesToWorking(committed, ops);
  }

  // ----- gaps stay where they are

  predicate HasCell(s: seq<Stone>, i: nat) {
    i == 0 || exists k :: 0 <= k < |s| && IsKept(s[k].cell, i - 1)
  }

  lemma {:induction false} GapIndexMeans(s: seq<Stone>, i: nat)
    requires HasCell(s, i) && 0 < i
    ensures var g := GapIndex(s, i); 0 < g && IsKept(s[g - 1].cell, i - 1)
    decreases |s|
  {
    if IsKept(s[0].cell, i - 1) {
    } else {
      HasCellTail(s, i);
      GapIndexMeans(s[1..], i);
    }
  }

  lemma HasCellTail(s: seq<Stone>, i: nat)
    requires HasCell(s, i) && |s| > 0 && 0 < i && !IsKept(s[0].cell, i - 1)
    ensures HasCell(s[1..], i)
  {
    var k :| 0 <= k < |s| && IsKept(s[k].cell, i - 1);
    assert s[1..][k - 1] == s[k];
  }

  /** Inserting fresh cells at or behind a gap leaves it alone, before it shifts it. */
  lemma {:induction false} GapIndexInsert(s: seq<Stone>, k: nat, added: seq<Stone>, i: nat)
    requires k <= |s| && HasCell(s, i) && forall j :: 0 <= j < |added| ==> added[j].cell.Fresh?
    ensures HasCell(s[..k] + added + s[k..], i)
    ensures GapIndex(s[..k] + added + s[k..], i) ==
            if k < GapIndex(s, i) then GapIndex(s, i) + |added| else GapIndex(s, i)
    decreases |s| + |added|
  {
    var t := s[..k] + added + s[k..];
    if i == 0 {
    } else if k > 0 {
      assert t[0] == s[0];
      assert t[1..] == s[1..][..k - 1] + added + s[1..][k - 1..];
      if IsKept(s[0].cell, i - 1) {
      } else {
        HasCellTail(s, i);
        GapIndexInsert(s[1..], k - 1, added, i);
        HasCellCons(t, i);
      }
    } else if |added| > 0 {
      assert t[0] == added[0];
      assert t[1..] == s[..0] + added[1..] + s[0..];
      GapIndexMeans(s, i);
      GapIndexInsert(s, 0, added[1..], i);
      HasCellCons(t, i);
    } else {
      assert t == s;
    }
  }

  lemma HasCellCons(t: seq<Stone>, i: nat)
    requires |t| > 0 && HasCell(t[1..], i)
    ensures HasCell(t, i)
  {
    if 0 < i {
      var k :| 0 <= k < |t[1..]| && IsKept(t[1..][k].cell, i - 1);
      assert IsKept(t[k + 1].cell, i - 1);
    }
  }

  /** Gaps depend on the cells, not on which of them live. */
  lemma {:induction false} GapIndexOfCells(s: seq<Stone>, t: seq<Stone>, i: nat)
    requires |s| == |t| && forall j :: 0 <= j < |s| ==> s[j].cell == t[j].cell
    ensures GapIndex(s, i) == GapIndex(t, i)
    decreases |s|
  {
    if i == 0 || |s| == 0 {
    } else {
      GapIndexOfCells(s[1..], t[1..], i);
    }
  }

  lemma {:induction false} GapsExist(committed: string, ops: seq<Op<char>>, i: nat)
    requires i <= |committed|
    ensures HasCell(Stones(committed, ops), i)
    decreases |ops|
  {
    if |ops| == 0 {
      assert 0 < i ==> IsKept(Stones(committed, ops)[i - 1].cell, i - 1);
    } else {
      var s, op := Stones(committed, ops[..|ops| - 1]), ops[|ops| - 1];
      GapsExist(committed, ops[..|ops| - 1], i);
      match op
      case Insert(pos, data) =>
        GapIndexInsert(s, IndexOfLive(s, pos), Standing(FreshCells(data)), i);
      case Delete(pos, len) =>
        if 0 < i {
          var k :| 0 <= k < |s| && IsKept(s[k].cell, i - 1);
          assert IsKept(Bury(s, pos, len)[k].cell, i - 1);
        }
    }
  }

  lemma {:induction false} FirstGapIndex(cells: seq<Cell>, i: nat, from: nat)
    requires i <= from + |cells| && (0 < i ==> from < i)
    requires forall k :: 0 <= k < |cells| ==> IsKept(cells[k], from + k)
    ensures GapIndex(Standing(cells), i) == if i == 0 then 0 else i - from
    decreases |cells|
  {
    if i == 0 {
    } else if from == i - 1 {
      assert IsKept(cells[0], from + 0);
    } else {
      assert Standing(cells)[1..] == Standing(cells[1..]);
      assert IsKept(cells[0], from + 0);
      forall k | 0 <= k < |cells[1..]|
        ensures IsKept(cells[1..][k], from + 1 + k)
      {
        assert IsKept(cells[k + 1], from + (k + 1));
      }
      FirstGapIndex(cells[1..], i, from + 1);
    }
  }

  // ----- one operation

  lemma LiveCountMonotone(s: seq<Stone>, i: nat, j: nat)
    requires i <= j <= |s|
    ensures LiveCount(s[..i]) <= LiveCount(s[..j])
  {
    LiveCountSplit(s, i, j);
  }

  lemma NoneBetween(s: seq<Stone>, l: nat, m: nat, r: nat)
    requires l < m < r <= |s| && s[l].live && LiveCount(s[..r]) == LiveCount(s[..l]) + 1
    ensures !s[m].live
  {
    LiveCountNext(s, l);
    LiveCountMonotone(s, l + 1, m);
    LiveCountNext(s, m);
    LiveCountMonotone(s, m + 1, r);
  }

  /** The nearest live cells around a gap are the one that ends the count before it and the next one. */
  lemma NeighboursOfGap(s: seq<Stone>, g: nat)
    requires g <= |s| && 0 < LiveCount(s[..g]) < LiveCount(s)
    ensures var n := LiveCount(s[..g]);
            var l, r := IndexOfLive(s, n - 1), IndexOfLive(s, n);
            l < g <= r < |s| && Neighbours(s, l, r) && LiveCount(s[..l]) == n - 1 && LiveCount(s[..r]) == n
  {
    var n := LiveCount(s[..g]);
    IndexOfLiveMeans(s, n - 1);
    IndexOfLiveMeans(s, n);
    LiveBefore(s, n - 1, g);
    LiveBefore(s, n, g);
    NeighboursAt(s, IndexOfLive(s, n - 1), IndexOfLive(s, n));
  }

  lemma NeighboursAt(s: seq<Stone>, l: nat, r: nat)
    requires l < r < |s| && s[l].live && s[r].live && LiveCount(s[..r]) == LiveCount(s[..l]) + 1
    ensures Neighbours(s, l, r)
  {
    forall m | l < m < r
      ensures !s[m].live
    {
      NoneBetween(s, l, m, r);
    }
  }

  lemma NeighboursCount(s: seq<Stone>, l: nat, g: nat, r: nat)
    requires l < g <= r < |s| && Neighbours(s, l, r)
    ensures LiveCount(s[..l]) == LiveCount(s[..g]) - 1 && LiveCount(s[..r]) == LiveCount(s[..g])
  {
    LiveCountNext(s, l);
    NothingLive(s, l + 1, g);
    NothingLive(s, g, r);
  }

  lemma {:induction false} NothingLive(s: seq<Stone>, i: nat, j: nat)
    requires i <= j <= |s| && forall m :: i <= m < j ==> !s[m].live
    ensures LiveCount(s[..i]) == LiveCount(s[..j])
    decreases j
  {
    if i == j {
    } else {
      NothingLive(s, i, j - 1);
      LiveCountNext(s, j - 1);
    }
  }

  lemma DiesMeans(s: seq<Stone>, pos: nat, len: nat, j: nat)
    requires j < |s|
    ensures Dies(s, Op.Delete(pos, len), j) <==> s[j].live && pos <= LiveCount(s[..j]) < pos + len
  {
  }

  lemma SwallowsIf(s: seq<Stone>, pos: nat, len: nat, g: nat)
    requires g <= |s| && pos + len <= LiveCount(s) && pos < LiveCount(s[..g]) < pos + len
    ensures Swallows(s, Op.Delete(pos, len), g)
  {
    var n := LiveCount(s[..g]);
    NeighboursOfGap(s, g);
    var l, r := IndexOfLive(s, n - 1), IndexOfLive(s, n);
    DiesMeans(s, pos, len, l);
    DiesMeans(s, pos, len, r);
  }

  lemma SwallowsOnlyIf(s: seq<Stone>, pos: nat, len: nat, g: nat)
    requires g <= |s| && Swallows(s, Op.Delete(pos, len), g)
    ensures pos < LiveCount(s[..g]) < pos + len
  {
    var op := Op.Delete(pos, len);
    var l, r :| 0 <= l < g <= r < |s| && Neighbours(s, l, r) && Dies(s, op, l) && Dies(s, op, r);
    NeighboursCount(s, l, g, r);
    DiesMeans(s, pos, len, l);
    DiesMeans(s, pos, len, r);
  }

  /** A deletion swallows a gap exactly when the live cells left of it are more than its position and fewer
      than its end. */
  lemma SwallowsIff(s: seq<Stone>, pos: nat, len: nat, g: nat)
    requires g <= |s| && pos + len <= LiveCount(s)
    ensures Swallows(s, Op.Delete(pos, len), g) <==> pos < LiveCount(s[..g]) < pos + len
  {
    if pos < LiveCount(s[..g]) < pos + len {
      SwallowsIf(s, pos, len, g);
    } else if Swallows(s, Op.Delete(pos, len), g) {
      SwallowsOnlyIf(s, pos, len, g);
    }
  }

  /** How many live cells a deletion leaves before a gap. */
  lemma {:induction false} BuryCount(s: seq<Stone>, pos: nat, len: nat, g: nat)
    requires g <= |s|
    ensures var n := LiveCount(s[..g]);
            LiveCount(Bury(s, pos, len)[..g]) == if n <= pos then n else if n < pos + len then pos else n - len
    decreases g
  {
    var t := Bury(s, pos, len);
    if g == 0 {
    } else {
      BuryCount(s, pos, len, g - 1);
      LiveCountNext(s, g - 1);
      LiveCountNext(t, g - 1);
    }
  }

  /** The number of live cells before gap i. */
  function Place(s: seq<Stone>, i: nat): nat {
    LiveCount(s[..GapIndex(s, i)])
  }

  lemma WovenPrefix<T>(s: seq<T>, k: nat, added: seq<T>, g: nat)
    requires k <= |s| && g <= |s|
    ensures var t := s[..k] + added + s[k..];
            if k < g then t[..g + |added|] == s[..k] + added + s[k..g] else t[..g] == s[..g]
  {
  }

  lemma LiveCountInsert(s: seq<Stone>, k: nat, added: seq<Stone>, g: nat)
    requires k <= |s| && g <= |s|
    ensures var t := s[..k] + added + s[k..];
            if k < g then LiveCount(t[..g + |added|]) == LiveCount(s[..g]) + LiveCount(added)
            else LiveCount(t[..g]) == LiveCount(s[..g])
  {
    WovenPrefix(s, k, added, g);
    if k < g {
      LiveCountConcat(s[..k] + added, s[k..g]);
      LiveCountConcat(s[..k], added);
      LiveCountSplit(s, k, g);
    }
  }

  lemma FreshStones(data: string)
    ensures var added := Standing(FreshCells(data));
            LiveCount(added) == |data| && forall j :: 0 <= j < |added| ==> added[j].cell.Fresh?
  {
    LiveCountStanding(FreshCells(data));
  }

  lemma InsertCounts(s: seq<Stone>, pos: nat, data: string, i: nat)
    requires HasCell(s, i) && pos <= LiveCount(s)
    ensures Place(Carve(s, Op.Insert(pos, data)), i) ==
            if pos < Place(s, i) then Place(s, i) + |data| else Place(s, i)
  {
    var k, g, added := IndexOfLive(s, pos), GapIndex(s, i), Standing(FreshCells(data));
    FreshStones(data);
    LiveBefore(s, pos, g);
    GapIndexInsert(s, k, added, i);
    LiveCountInsert(s, k, added, g);
    var t := s[..k] + added + s[k..];
    assert Carve(s, Op.Insert(pos, data)) == t;
    assert GapIndex(t, i) == if k < g then g + |added| else g;
    assert Place(s, i) == LiveCount(s[..g]);
    assert Place(t, i) == LiveCount(t[..if k < g then g + |added| else g]);
  }

  lemma DeleteCounts(s: seq<Stone>, pos: nat, len: nat, i: nat)
    requires !(pos < Place(s, i) < pos + len)
    ensures Place(Bury(s, pos, len), i) == if pos < Place(s, i) then Place(s, i) - len else Place(s, i)
  {
    GapIndexOfCells(s, Bury(s, pos, len), i);
    BuryCount(s, pos, len, GapIndex(s, i));
  }

  lemma DeleteStep(s: seq<Stone>, pos: nat, len: nat, i: nat)
    requires pos + len <= LiveCount(s)
    ensures TransformStep(Op<char>.Delete(pos, len), Place(s, i)) ==
            if Swallows(s, Op.Delete(pos, len), GapIndex(s, i)) then None else Some(Place(Bury(s, pos, len), i))
  {
    SwallowsIff(s, pos, len, GapIndex(s, i));
    if !(pos < Place(s, i) < pos + len) {
      DeleteCounts(s, pos, len, i);
    }
  }

  /** One step: the loop's arithmetic on positions is counting on tombstones. */
  lemma StepCounts(s: seq<Stone>, op: Op<char>, i: nat)
    requires HasCell(s, i) && InBounds(LiveCount(s), op)
    ensures TransformStep(op, Place(s, i)) ==
            if Swallows(s, op, GapIndex(s, i)) then None else Some(Place(Carve(s, op), i))
  {
    hide LiveCount, GapIndex;
    match op
    case Insert(pos, data) => InsertCounts(s, pos, data, i);
    case Delete(pos, len) => DeleteStep(s, pos, len, i);
  }

  // ----- the whole queue

  /** Some operation of the queue swallows gap i. */
  ghost predicate Swallowed(committed: string, ops: seq<Op<char>>, i: nat) {
    exists k :: 0 <= k < |ops| && SwallowedBy(committed, ops, k, i)
  }

  ghost predicate SwallowedBy(committed: string, ops: seq<Op<char>>, k: nat, i: nat)
    requires k < |ops|
  {
    SwallowedNext(committed, ops[..k], ops[k], i)
  }

  /** The operation that comes after a queue swallows gap i. */
  ghost predicate SwallowedNext(committed: string, ops: seq<Op<char>>, next: Op<char>, i: nat) {
    var s := Stones(committed, ops);
    Swallows(s, next, GapIndex(s, i))
  }

  lemma SwallowedSnoc(committed: string, ops: seq<Op<char>>, i: nat)
    requires |ops| > 0
    ensures var init := ops[..|ops| - 1];
            Swallowed(committed, ops, i) <==>
            Swallowed(committed, init, i) || SwallowedNext(committed, init, ops[|ops| - 1], i)
  {
    var init, n := ops[..|ops| - 1], |ops| - 1;
    forall k | 0 <= k < n
      ensures SwallowedBy(committed, init, k, i) <==> SwallowedBy(committed, ops, k, i)
    {
      assert init[..k] == ops[..k];
    }
    assert SwallowedBy(committed, ops, n, i) <==> SwallowedNext(committed, init, ops[n], i);
  }

  lemma PlaceAtFirst(committed: string, ops: seq<Op<char>>, i: nat)
    requires i <= |committed| && |ops| == 0
    ensures Place(Stones(committed, ops), i) == i
  {
    var cells := Tag(committed);
    FirstGapIndex(cells, i, 0);
    assert Standing(cells)[..i] == Standing(cells[..i]);
    LiveCountStanding(cells[..i]);
  }

  lemma PlaceSnoc(committed: string, ops: seq<Op<char>>, i: nat)
    requires WellFormed(committed, ops) && i <= |committed| && |ops| > 0
    ensures var init, last := ops[..|ops| - 1], ops[|ops| - 1];
            TransformStep(last, Place(Stones(committed, init), i)) ==
            if SwallowedNext(committed, init, last, i) then None else Some(Place(Stones(committed, ops), i))
  {
    var init := ops[..|ops| - 1];
    LivingStonesAreTraced(committed, init);
    GapsExist(committed, init, i);
    StepCounts(Stones(committed, init), ops[|ops| - 1], i);
  }

  /** The loop over the queue computes what one reads off the tombstones: a position is rejected exactly when
      one pending deletion marked the nearest live cells on both sides of its gap, and otherwise it is the
      number of live cells up to its gap. */
  lemma {:induction false} TransformCountsLiveCells(committed: string, ops: seq<Op<char>>, i: nat)
    requires WellFormed(committed, ops) && i <= |committed|
    ensures Transform(ops, i) ==
            if Swallowed(committed, ops, i) then None else Some(Place(Stones(committed, ops), i))
    decreases |ops|
  {
    if |ops| == 0 {
      PlaceAtFirst(committed, ops, i);
    } else {
      TransformCountsLiveCells(committed, ops[..|ops| - 1], i);
      SwallowedSnoc(committed, ops, i);
      PlaceSnoc(committed, ops, i);
    }
  }

  // ----- stretches between gaps

  /** Gaps of the committed text stay in their order. */
  lemma {:induction false} GapsInOrder(committed: string, ops: seq<Op<char>>, i: nat, j: nat)
    requires i <= j <= |committed|
    ensures GapIndex(Stones(committed, ops), i) <= GapIndex(Stones(committed, ops), j)
    decreases |ops|
  {
    if |ops| == 0 {
      FirstGapIndex(Tag(committed), i, 0);
      FirstGapIndex(Tag(committed), j, 0);
    } else {
      var init := ops[..|ops| - 1];
      GapsInOrder(committed, init, i, j);
      GapsExist(committed, init, i);
      GapsExist(committed, init, j);
      CarveKeepsOrder(Stones(committed, init), ops[|ops| - 1], i, j);
    }
  }

  lemma CarveKeepsOrder(s: seq<Stone>, op: Op<char>, i: nat, j: nat)
    requires HasCell(s, i) && HasCell(s, j) && GapIndex(s, i) <= GapIndex(s, j)
    ensures GapIndex(Carve(s, op), i) <= GapIndex(Carve(s, op), j)
  {
    hide GapIndex, HasCell, LiveCount;
    match op
    case Insert(pos, data) =>
      FreshStones(data);
      GapIndexInsert(s, IndexOfLive(s, pos), Standing(FreshCells(data)), i);
      GapIndexInsert(s, IndexOfLive(s, pos), Standing(FreshCells(data)), j);
    case Delete(pos, len) =>
      GapIndexOfCells(s, Bury(s, pos, len), i);
      GapIndexOfCells(s, Bury(s, pos, len), j);
  }

  lemma LivingCut(s: seq<Stone>, g: nat)
    requires g <= |s|
    ensures var n := LiveCount(s[..g]);
            n <= |Living(s)| && Living(s[..g]) == Living(s)[..n] && Living(s[g..]) == Living(s)[n..]
  {
    assert s == s[..g] + s[g..];
    LivingConcat(s[..g], s[g..]);
    LivingCount(s[..g]);
  }

  lemma LivingBetween(s: seq<Stone>, g: nat, h: nat)
    requires g <= h <= |s|
    ensures var n, m := LiveCount(s[..g]), LiveCount(s[..h]);
            n <= m <= |Living(s)| && Living(s[g..h]) == Living(s)[n..m]
  {
    var head := s[..h];
    assert head[..g] == s[..g] && head[g..] == s[g..h];
    LivingCut(s, h);
    LivingCut(head, g);
    LivingCount(head);
    SliceOfPrefix(Living(s), LiveCount(s[..g]), LiveCount(head));
  }

  lemma SliceOfPrefix(cells: seq<Cell>, n: nat, m: nat)
    requires n <= m <= |cells|
    ensures cells[..m][n..] == cells[n..m]
  {
  }

  /** Between two carried positions stands exactly what lives between their gaps, committed or inserted. */
  lemma TracedBetweenGaps(committed: string, ops: seq<Op<char>>, i: nat, j: nat)
    requires WellFormed(committed, ops) && i <= j <= |committed|
    requires Transform(ops, i).Some? && Transform(ops, j).Some?
    ensures var stones, cells := Stones(committed, ops), Traced(committed, ops);
            var g, h := GapIndex(stones, i), GapIndex(stones, j);
            var s, e := Transform(ops, i).value, Transform(ops, j).value;
            && g <= h && s <= e <= |cells|
            && cells[..s] == Living(stones[..g])
            && cells[s..e] == Living(stones[g..h])
            && cells[e..] == Living(stones[h..])
  {
    hide GapIndex, LiveCount, Living, Stones, Transform, Traced, Swallowed;
    var stones := Stones(committed, ops);
    GapsInOrder(committed, ops, i, j);
    TransformCountsLiveCells(committed, ops, i);
    TransformCountsLiveCells(committed, ops, j);
    LivingStonesAreTraced(committed, ops);
    LivingCut(stones, GapIndex(stones, i));
    LivingCut(stones, GapIndex(stones, j));
    LivingBetween(stones, GapIndex(stones, i), GapIndex(stones, j));
  }
}
