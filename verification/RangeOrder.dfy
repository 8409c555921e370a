/** Several range commands on one document, whatever is pending on it: a closed form for the result, and
    exactly when their order does not matter. */
module RangeOrder {
  import opened Wrappers
  import opened Ops
  import opened Engine
  import Renumbering

  predicate AllRange(cs: seq<Command>) {
    forall c :: c in cs ==> IsRange(c)
  }

  /** Executes the commands one after the other, all against the same version. */
  function ExecAll(d: Doc, cs: seq<Command>): Doc {
    if |cs| == 0 then d else Exec(ExecAll(d, cs[..|cs| - 1]), d.version, cs[|cs| - 1]).1
  }

  /** Two markers and the places of the working text that they go to. */
  datatype Wrapping = Wrapping(start: nat, end: nat, open: string, close: string)

  /** What an accepted range command puts where: its endpoints are carried over what is pending. */
  function WrappingOf(d: Doc, c: Command): (m: Option<Wrapping>)
    ensures m.Some? <==> IsRange(c) && Accepts(d, d.version, c)
  {
    if IsRange(c) && Accepts(d, d.version, c) then
      Some(Wrapping(Transform(d.ops, c.start).value, Transform(d.ops, c.end).value, Opening(c), Closing(c)))
    else None
  }

  /** What one command leaves at place g; when both its places coincide the opening marker comes first. */
  function MarkerAt(m: Option<Wrapping>, g: nat): string {
    if m.None? then ""
    else (if g == m.value.start then m.value.open else "") + (if g == m.value.end then m.value.close else "")
  }

  /** Everything that ends up at place g: the markers of the commands, the latest first. */
  function GapText(d: Doc, cs: seq<Command>, g: nat): string {
    if |cs| == 0 then "" else MarkerAt(WrappingOf(d, cs[|cs| - 1]), g) + GapText(d, cs[..|cs| - 1], g)
  }

  /** The fillings of all gaps of the working text: one before every character and one at the end. */
  function Gaps(d: Doc, cs: seq<Command>): (gaps: seq<string>)
    ensures |gaps| == |Working(d)| + 1
  {
    seq(|Working(d)| + 1, (g: nat) => GapText(d, cs, g))
  }

  /** The text up to gap k, with all gaps before k filled. */
  function Before(text: string, gaps: seq<string>, k: nat): string
    requires |gaps| == |text| + 1 && k <= |text|
  {
    if k == 0 then "" else Before(text, gaps, k - 1) + (gaps[k - 1] + [text[k - 1]])
  }

  /** The text with every gap filled. */
  function Layout(text: string, gaps: seq<string>): string
    requires |gaps| == |text| + 1
  {
    Before(text, gaps, |text|) + gaps[|text|]
  }

  /** A place of the text moves to its offset in the layout; a lost one stays lost. */
  function Moved(text: string, gaps: seq<string>, place: Option<nat>): Option<nat>
    requires |gaps| == |text| + 1 && (place.Some? ==> place.value <= |text|)
  {
    match place
    case None => None
    case Some(p) => Some(|Before(text, gaps, p)|)
  }

  // ----- filling one gap

  function Splice(s: string, at: nat, x: string): string
    requires at <= |s|
  {
    s[..at] + x + s[at..]
  }

  lemma SpliceExtend(b: string, at: nat, x: string, rest: string)
    requires at <= |b|
    ensures Splice(b + rest, at, x) == Splice(b, at, x) + rest
  {
    assert (b + rest)[..at] == b[..at];
    assert (b + rest)[at..] == b[at..] + rest;
  }

  lemma SpliceAtSeam(b: string, x: string, rest: string)
    ensures Splice(b + rest, |b|, x) == b + (x + rest)
  {
    assert (b + rest)[..|b|] == b;
    assert (b + rest)[|b|..] == rest;
  }

  lemma {:induction false} OffsetsIncrease(text: string, gaps: seq<string>, i: nat, j: nat)
    requires |gaps| == |text| + 1 && i <= j <= |text|
    ensures |Before(text, gaps, i)| + (j - i) <= |Before(text, gaps, j)|
    decreases j
  {
    if i == j {
    } else {
      OffsetsIncrease(text, gaps, i, j - 1);
    }
  }

  lemma {:induction false} FillBefore(text: string, gaps: seq<string>, g: nat, x: string, k: nat)
    requires |gaps| == |text| + 1 && g <= |text| && k <= |text|
    ensures var filled := gaps[g := x + gaps[g]];
            && (k <= g ==> Before(text, filled, k) == Before(text, gaps, k))
            && (g < k ==>
                  && |Before(text, gaps, g)| <= |Before(text, gaps, k)|
                  && Before(text, filled, k) == Splice(Before(text, gaps, k), |Before(text, gaps, g)|, x))
    decreases k
  {
    if k == 0 {
    } else {
      var filled := gaps[g := x + gaps[g]];
      var b, cell := Before(text, gaps, k - 1), gaps[k - 1] + [text[k - 1]];
      FillBefore(text, gaps, g, x, k - 1);
      if g == k - 1 {
        SpliceAtSeam(b, x, cell);
        Assoc(x, gaps[g], [text[g]]);
      } else if g < k - 1 {
        SpliceExtend(b, |Before(text, gaps, g)|, x, cell);
        assert filled[k - 1] == gaps[k - 1];
      }
    }
  }

  lemma FillLayout(text: string, gaps: seq<string>, g: nat, x: string)
    requires |gaps| == |text| + 1 && g <= |text|
    ensures |Before(text, gaps, g)| <= |Layout(text, gaps)|
    ensures Layout(text, gaps[g := x + gaps[g]]) == Splice(Layout(text, gaps), |Before(text, gaps, g)|, x)
  {
    var n := |text|;
    FillBefore(text, gaps, g, x, n);
    if g == n {
      SpliceAtSeam(Before(text, gaps, n), x, gaps[n]);
    } else {
      SpliceExtend(Before(text, gaps, n), |Before(text, gaps, g)|, x, gaps[n]);
    }
  }

  /** An insertion at the offset of gap g moves the offset of every gap as filling gap g does. */
  lemma FillOffset(text: string, gaps: seq<string>, g: nat, x: string, i: nat)
    requires |gaps| == |text| + 1 && g <= |text| && i <= |text|
    ensures TransformStep(Op.Insert(|Before(text, gaps, g)|, x), |Before(text, gaps, i)|) ==
            Some(|Before(text, gaps[g := x + gaps[g]], i)|)
  {
    FillBefore(text, gaps, g, x, i);
    OffsetsIncrease(text, gaps, if g < i then g else i, if g < i then i else g);
  }

  // ----- one range command

  /** A range command fills the gap at its end and then the gap at its start. */
  function Filled(gaps: seq<string>, m: Wrapping): (r: seq<string>)
    requires m.start < |gaps| && m.end < |gaps|
    ensures |r| == |gaps|
  {
    var closed := gaps[m.end := m.close + gaps[m.end]];
    closed[m.start := m.open + closed[m.start]]
  }

  lemma FilledAt(gaps: seq<string>, m: Wrapping, g: nat)
    requires m.start < |gaps| && m.end < |gaps| && g < |gaps|
    ensures Filled(gaps, m)[g] == MarkerAt(Some(m), g) + gaps[g]
  {
    Assoc(m.open, m.close, gaps[g]);
    assert "" + m.close == m.close && m.open + "" == m.open;
    assert "" + "" + gaps[g] == gaps[g];
  }

  lemma GapsSnoc(d: Doc, cs: seq<Command>, c: Command)
    requires WrappingOf(d, c).Some?
    requires WrappingOf(d, c).value.start <= |Working(d)| && WrappingOf(d, c).value.end <= |Working(d)|
    ensures Gaps(d, cs + [c]) == Filled(Gaps(d, cs), WrappingOf(d, c).value)
  {
    var m := WrappingOf(d, c).value;
    var gaps, gaps', filled := Gaps(d, cs), Gaps(d, cs + [c]), Filled(Gaps(d, cs), m);
    forall g | 0 <= g < |gaps'|
      ensures gaps'[g] == filled[g]
    {
      GapTextSnoc(d, cs, c, g);
      FilledAt(gaps, m, g);
    }
  }

  lemma GapsSnocRefused(d: Doc, cs: seq<Command>, c: Command)
    requires WrappingOf(d, c).None?
    ensures Gaps(d, cs + [c]) == Gaps(d, cs)
  {
    forall g | 0 <= g <= |Working(d)|
      ensures Gaps(d, cs + [c])[g] == Gaps(d, cs)[g]
    {
      GapTextSnoc(d, cs, c, g);
    }
  }

  lemma GapTextSnoc(d: Doc, cs: seq<Command>, c: Command, g: nat)
    ensures GapText(d, cs + [c], g) == MarkerAt(WrappingOf(d, c), g) + GapText(d, cs, g)
  {
    assert (cs + [c])[..|cs|] == cs;
  }

  lemma ApplyInsert(text: string, pos: nat, data: string)
    requires pos <= |text|
    ensures Apply(text, Op.Insert(pos, data)) == Splice(text, pos, data)
  {
  }

  lemma TransformTwo<T>(a: Op<T>, b: Op<T>, p: nat)
    ensures Transform([a, b], p) ==
            match TransformStep(a, p) { case None => None case Some(q) => TransformStep(b, q) }
  {
    assert [a, b][..1] == [a] && [a][..0] == [];
    assert Transform([a], p) == TransformStep(a, p);
  }

  /** What the two insertions of a range command do to a laid-out text and to a position in it. */
  lemma WrappingStep(text: string, gaps: seq<string>, m: Wrapping, i: nat)
    requires |gaps| == |text| + 1 && m.start <= m.end <= |text| && i <= |text|
    ensures var plan: seq<Op<char>> := [Op.Insert(|Before(text, gaps, m.end)|, m.close),
                                        Op.Insert(|Before(text, gaps, m.start)|, m.open)];
            && ApplyAll(Layout(text, gaps), plan) == Layout(text, Filled(gaps, m))
            && Transform(plan, |Before(text, gaps, i)|) == Some(|Before(text, Filled(gaps, m), i)|)
  {
    var closed := gaps[m.end := m.close + gaps[m.end]];
    var e, s := |Before(text, gaps, m.end)|, |Before(text, gaps, m.start)|;
    var a: Op<char>, b: Op<char> := Op.Insert(e, m.close), Op.Insert(s, m.open);
    FillBefore(text, gaps, m.end, m.close, m.start);
    FillLayout(text, gaps, m.end, m.close);
    FillLayout(text, closed, m.start, m.open);
    ApplyTwo(Layout(text, gaps), a, b);
    ApplyInsert(Layout(text, gaps), e, m.close);
    ApplyInsert(Layout(text, closed), s, m.open);
    FillOffset(text, gaps, m.end, m.close, i);
    FillOffset(text, closed, m.start, m.open, i);
    TransformTwo(a, b, |Before(text, gaps, i)|);
  }

  lemma {:induction false} TransformAppend<T>(ops: seq<Op<T>>, more: seq<Op<T>>, p: nat)
    ensures Transform(ops + more, p) ==
            match Transform(ops, p) { case None => None case Some(q) => Transform(more, q) }
    decreases |more|
  {
    if |more| == 0 {
      assert ops + more == ops;
    } else {
      assert (ops + more)[..|ops + more| - 1] == ops + more[..|more| - 1];
      TransformAppend(ops, more[..|more| - 1], p);
    }
  }

  /** What an accepted range command does to the working text and to the carried positions. */
  lemma ExecRange(d: Doc, c: Command, s: nat, e: nat, i: nat)
    requires IsRange(c) && c.start < c.end <= |d.committed|
    requires Transform(d.ops, c.start) == Some(s) && Transform(d.ops, c.end) == Some(e)
    ensures var plan: seq<Op<char>> := [Op.Insert(e, Closing(c)), Op.Insert(s, Opening(c))];
            var (outcome, after) := Exec(d, d.version, c);
            && outcome == Success
            && Working(after) == ApplyAll(Working(d), plan)
            && Transform(after.ops, i) ==
               match Transform(d.ops, i) { case None => None case Some(q) => Transform(plan, q) }
  {
    var plan: seq<Op<char>> := [Op.Insert(e, Closing(c)), Op.Insert(s, Opening(c))];
    TransformAppend(d.ops, plan, i);
    Append(d.committed, d.ops, plan);
  }

  // ----- the closed form

  /** The document b is d after range commands that filled these gaps of its working text. */
  predicate LaidOut(d: Doc, b: Doc, gaps: seq<string>)
    requires |gaps| == |Working(d)| + 1
  {
    && Valid(b) && b.committed == d.committed && b.version == d.version
    && Working(b) == Layout(Working(d), gaps)
  }

  /** Position i of the committed text has moved with the layout. */
  predicate Follows(d: Doc, b: Doc, gaps: seq<string>, i: nat)
    requires |gaps| == |Working(d)| + 1
  {
    && (Transform(d.ops, i).Some? ==> Transform(d.ops, i).value <= |Working(d)|)
    && Transform(b.ops, i) == Moved(Working(d), gaps, Transform(d.ops, i))
  }

  lemma AcceptedStep(d: Doc, b: Doc, gaps: seq<string>, c: Command, i: nat)
    requires Valid(d) && |gaps| == |Working(d)| + 1 && WrappingOf(d, c).Some?
    requires LaidOut(d, b, gaps)
    requires Follows(d, b, gaps, c.start) && Follows(d, b, gaps, c.end) && Follows(d, b, gaps, i)
    ensures var (outcome, after), m := Exec(b, d.version, c), WrappingOf(d, c).value;
            && outcome == Success
            && m.start <= m.end <= |Working(d)|
            && LaidOut(d, after, Filled(gaps, m)) && Follows(d, after, Filled(gaps, m), i)
  {
    var m, text := WrappingOf(d, c).value, Working(d);
    CarriedRange(d, c.start, c.end);
    ExecKeepsValid(b, d.version, c);
    ExecRange(b, c, |Before(text, gaps, m.start)|, |Before(text, gaps, m.end)|, i);
    match Transform(d.ops, i) {
      case None => WrappingStep(text, gaps, m, 0);
      case Some(p) => WrappingStep(text, gaps, m, p);
    }
  }

  lemma RefusedStep(d: Doc, b: Doc, gaps: seq<string>, c: Command)
    requires |gaps| == |Working(d)| + 1 && IsRange(c) && WrappingOf(d, c).None?
    requires b.committed == d.committed && b.version == d.version
    requires c.start < c.end <= |d.committed| ==> Follows(d, b, gaps, c.start) && Follows(d, b, gaps, c.end)
    ensures Exec(b, d.version, c) == (Exec(d, d.version, c).0, b)
    ensures Exec(b, d.version, c).0 != Success
  {
  }

  /** Any list of range commands on any document yields its working text with the markers of the accepted
      commands at their carried places, the latest first, and moves every position with them. */
  lemma {:induction false} FormattingClosedForm(d: Doc, cs: seq<Command>, i: nat)
    requires Valid(d) && AllRange(cs) && i <= |d.committed|
    ensures LaidOut(d, ExecAll(d, cs), Gaps(d, cs))
    ensures Follows(d, ExecAll(d, cs), Gaps(d, cs), i)
    decreases |cs|
  {
    if |cs| == 0 {
      assert cs == [];
      NoMarkers(d, i);
    } else {
      var init, c := cs[..|cs| - 1], cs[|cs| - 1];
      assert c in cs;
      FormattingClosedForm(d, init, i);
      if c.start < c.end <= |d.committed| {
        FormattingClosedForm(d, init, c.start);
        FormattingClosedForm(d, init, c.end);
      }
      if WrappingOf(d, c).Some? {
        AcceptedStep(d, ExecAll(d, init), Gaps(d, init), c, i);
        GapsSnoc(d, init, c);
      } else {
        RefusedStep(d, ExecAll(d, init), Gaps(d, init), c);
        GapsSnocRefused(d, init, c);
      }
      SplitLast(cs);
    }
  }

  /** What a range command is told does not depend on the range commands before it. */
  lemma OutcomesIgnoreOrder(d: Doc, cs: seq<Command>, c: Command)
    requires Valid(d) && AllRange(cs) && IsRange(c)
    ensures Exec(ExecAll(d, cs), d.version, c).0 == Exec(d, d.version, c).0
  {
    hide LaidOut, Gaps, ExecAll;
    FormattingClosedForm(d, cs, 0);
    if c.start < c.end <= |d.committed| {
      FormattingClosedForm(d, cs, c.start);
      FormattingClosedForm(d, cs, c.end);
    }
    if WrappingOf(d, c).Some? {
      AcceptedStep(d, ExecAll(d, cs), Gaps(d, cs), c, c.start);
    } else {
      RefusedStep(d, ExecAll(d, cs), Gaps(d, cs), c);
    }
  }

  lemma {:induction false} EmptyGaps(text: string, gaps: seq<string>, k: nat)
    requires |gaps| == |text| + 1 && k <= |text|
    requires forall g :: 0 <= g < |gaps| ==> gaps[g] == ""
    ensures Before(text, gaps, k) == text[..k]
  {
    if k == 0 {
    } else {
      EmptyGaps(text, gaps, k - 1);
    }
  }

  lemma NoMarkers(d: Doc, i: nat)
    requires Valid(d) && i <= |d.committed|
    ensures LaidOut(d, d, Gaps(d, [])) && Follows(d, d, Gaps(d, []), i)
  {
    var w := Working(d);
    EmptyGaps(w, Gaps(d, []), |w|);
    TransformBounded(d.committed, d.ops, i);
    if Transform(d.ops, i).Some? {
      EmptyGaps(w, Gaps(d, []), Transform(d.ops, i).value);
    }
  }

  // ----- order

  /** What a list of commands puts at gap g has a length that does not depend on their order. */
  lemma {:induction false} GapLengthIgnoresOrder(d: Doc, xs: seq<Command>, ys: seq<Command>, g: nat)
    requires multiset(xs) == multiset(ys)
    ensures |GapText(d, xs, g)| == |GapText(d, ys, g)|
    decreases |xs|
  {
    if |xs| == 0 {
      assert |multiset(ys)| == 0;
    } else {
      var init, x := xs[..|xs| - 1], xs[|xs| - 1];
      SplitLast(xs);
      assert x in multiset(ys);
      var i :| 0 <= i < |ys| && ys[i] == x;
      RemoveOne(ys, i);
      RemoveOne(xs, |xs| - 1);
      assert xs[..|xs| - 1] + xs[|xs|..] == init;
      GapLengthIgnoresOrder(d, init, ys[..i] + ys[i + 1..], g);
      GapLengthLast(d, xs, g);
      GapLengthWithout(d, ys, i, g);
    }
  }

  lemma RemoveOne(ys: seq<Command>, i: nat)
    requires i < |ys|
    ensures multiset(ys[..i] + ys[i + 1..]) == multiset(ys) - multiset{ys[i]}
  {
    assert ys == ys[..i] + ([ys[i]] + ys[i + 1..]);
  }

  lemma GapLengthLast(d: Doc, cs: seq<Command>, g: nat)
    requires |cs| > 0
    ensures |GapText(d, cs, g)| == |GapText(d, cs[..|cs| - 1], g)| + |MarkerAt(WrappingOf(d, cs[|cs| - 1]), g)|
  {
  }

  lemma {:induction false} GapLengthWithout(d: Doc, ys: seq<Command>, i: nat, g: nat)
    requires i < |ys|
    ensures |GapText(d, ys, g)| == |GapText(d, ys[..i] + ys[i + 1..], g)| + |MarkerAt(WrappingOf(d, ys[i]), g)|
    decreases |ys|
  {
    var ys' := ys[..i] + ys[i + 1..];
    GapLengthLast(d, ys, g);
    if i == |ys| - 1 {
      WithoutLast(ys);
    } else {
      WithoutEarlier(ys, i);
      GapLengthLast(d, ys', g);
      GapLengthWithout(d, ys[..|ys| - 1], i, g);
    }
  }

  lemma WithoutLast(ys: seq<Command>)
    requires |ys| > 0
    ensures ys[..|ys| - 1] + ys[|ys|..] == ys[..|ys| - 1]
  {
  }

  lemma WithoutEarlier(ys: seq<Command>, i: nat)
    requires i < |ys| - 1
    ensures var ys', init := ys[..i] + ys[i + 1..], ys[..|ys| - 1];
            && ys'[|ys'| - 1] == ys[|ys| - 1]
            && ys'[..|ys'| - 1] == init[..i] + init[i + 1..]
  {
  }

  predicate SameLengths(xs: seq<string>, ys: seq<string>) {
    |xs| == |ys| && forall g :: 0 <= g < |xs| ==> |xs[g]| == |ys[g]|
  }

  lemma SplitEqual(a: string, b: string, a': string, b': string)
    requires |a| == |a'| && a + b == a' + b'
    ensures a == a' && b == b'
  {
    assert a == (a + b)[..|a|] && a' == (a' + b')[..|a|];
    assert b == (a + b)[|a|..] && b' == (a' + b')[|a|..];
  }

  /** With fillings of known lengths the gaps can be read back from the text. */
  lemma {:induction false} BeforeInjective(text: string, xs: seq<string>, ys: seq<string>, k: nat)
    requires |xs| == |text| + 1 && SameLengths(xs, ys) && k <= |text|
    ensures |Before(text, xs, k)| == |Before(text, ys, k)|
    ensures Before(text, xs, k) == Before(text, ys, k) ==> forall g :: 0 <= g < k ==> xs[g] == ys[g]
  {
    if k == 0 {
    } else {
      BeforeInjective(text, xs, ys, k - 1);
      if Before(text, xs, k) == Before(text, ys, k) {
        var last := [text[k - 1]];
        SplitEqual(Before(text, xs, k - 1), xs[k - 1] + last, Before(text, ys, k - 1), ys[k - 1] + last);
        SplitEqual(xs[k - 1], last, ys[k - 1], last);
      }
    }
  }

  lemma LayoutInjective(text: string, xs: seq<string>, ys: seq<string>)
    requires |xs| == |text| + 1 && SameLengths(xs, ys)
    ensures Layout(text, xs) == Layout(text, ys) <==> xs == ys
  {
    var n := |text|;
    BeforeInjective(text, xs, ys, n);
    if Layout(text, xs) == Layout(text, ys) {
      SplitEqual(Before(text, xs, n), xs[n], Before(text, ys, n), ys[n]);
      assert forall g :: 0 <= g < |xs| ==> xs[g] == ys[g];
    }
  }

  lemma SameGapLengths(d: Doc, xs: seq<Command>, ys: seq<Command>)
    requires multiset(xs) == multiset(ys)
    ensures SameLengths(Gaps(d, xs), Gaps(d, ys))
  {
    forall g | 0 <= g <= |Working(d)|
      ensures |Gaps(d, xs)[g]| == |Gaps(d, ys)[g]|
    {
      GapLengthIgnoresOrder(d, xs, ys, g);
    }
  }

  /** Two orders of the same range commands give the same working text exactly when they stack the markers
      the same way at every place. */
  lemma OrderIsIrrelevantIff(d: Doc, xs: seq<Command>, ys: seq<Command>)
    requires Valid(d) && AllRange(xs) && multiset(xs) == multiset(ys)
    ensures Working(ExecAll(d, xs)) == Working(ExecAll(d, ys)) <==> Gaps(d, xs) == Gaps(d, ys)
  {
    SameMembers(xs, ys);
    FormattingClosedForm(d, xs, 0);
    FormattingClosedForm(d, ys, 0);
    SameGapLengths(d, xs, ys);
    LayoutInjective(Working(d), Gaps(d, xs), Gaps(d, ys));
  }

  lemma SameMembers(xs: seq<Command>, ys: seq<Command>)
    requires multiset(xs) == multiset(ys)
    ensures forall c :: c in xs <==> c in ys
  {
    assert forall c :: c in xs <==> c in multiset(xs);
    assert forall c :: c in ys <==> c in multiset(ys);
  }

  /** An accepted command whose start or end is carried to place g. */
  predicate Touches(d: Doc, c: Command, g: nat) {
    WrappingOf(d, c).Some? && (g == WrappingOf(d, c).value.start || g == WrappingOf(d, c).value.end)
  }

  /** No two commands are carried to a common place, in particular no accepted one occurs twice. */
  ghost predicate DistinctPlaces(d: Doc, cs: seq<Command>) {
    && (forall x :: x in cs && WrappingOf(d, x).Some? ==> multiset(cs)[x] == 1)
    && (forall x, y, g: nat :: x in cs && y in cs && Touches(d, x, g) && Touches(d, y, g) ==> x == y)
  }

  lemma {:induction false} UntouchedGap(d: Doc, cs: seq<Command>, g: nat)
    requires forall c :: c in cs ==> !Touches(d, c, g)
    ensures GapText(d, cs, g) == ""
    decreases |cs|
  {
    if |cs| == 0 {
    } else {
      assert cs[|cs| - 1] in cs;
      UntouchedGap(d, cs[..|cs| - 1], g);
    }
  }

  lemma {:induction false} SingleMarker(d: Doc, cs: seq<Command>, c: Command, g: nat)
    requires c in cs && multiset(cs)[c] == 1
    requires forall x :: x in cs && Touches(d, x, g) ==> x == c
    ensures GapText(d, cs, g) == MarkerAt(WrappingOf(d, c), g)
    decreases |cs|
  {
    var init, last := cs[..|cs| - 1], cs[|cs| - 1];
    assert cs == init + [last];
    assert multiset(cs)[c] == multiset(init)[c] + multiset{last}[c];
    assert last in cs;
    if last == c {
      assert c !in multiset(init);
      UntouchedGap(d, init, g);
    } else {
      assert c in multiset(init);
      SingleMarker(d, init, c, g);
    }
  }

  /** Range commands that are carried to pairwise distinct places can be applied in any order. */
  lemma DistinctPlacesCommute(d: Doc, xs: seq<Command>, ys: seq<Command>)
    requires Valid(d) && AllRange(xs) && multiset(xs) == multiset(ys)
    requires DistinctPlaces(d, xs)
    ensures Working(ExecAll(d, xs)) == Working(ExecAll(d, ys))
  {
    SameMembers(xs, ys);
    var gx, gy := Gaps(d, xs), Gaps(d, ys);
    forall g | 0 <= g < |gx|
      ensures gx[g] == gy[g]
    {
      if c :| c in xs && Touches(d, c, g) {
        SingleMarker(d, xs, c, g);
        SingleMarker(d, ys, c, g);
      } else {
        UntouchedGap(d, xs, g);
        UntouchedGap(d, ys, g);
      }
    }
    OrderIsIrrelevantIff(d, xs, ys);
  }

  /** No two commands share an endpoint in the committed text, in particular none occurs twice. */
  ghost predicate DistinctEndpoints(cs: seq<Command>) {
    && (forall x :: x in cs ==> multiset(cs)[x] == 1)
    && (forall x, y, g: nat :: x in cs && y in cs && HasEndpoint(x, g) && HasEndpoint(y, g) ==> x == y)
  }

  predicate HasEndpoint(c: Command, g: nat) {
    IsRange(c) && (g == c.start || g == c.end)
  }

  /** While no deletion is pending, in particular when nothing is, distinct endpoints are enough. */
  lemma DistinctEndpointsCommute(d: Doc, xs: seq<Command>, ys: seq<Command>)
    requires Valid(d) && InsertsOnly(d.ops) && AllRange(xs) && multiset(xs) == multiset(ys)
    requires DistinctEndpoints(xs)
    ensures Working(ExecAll(d, xs)) == Working(ExecAll(d, ys))
  {
    forall x, y, g: nat | x in xs && y in xs && Touches(d, x, g) && Touches(d, y, g)
      ensures x == y
    {
      var i := if g == WrappingOf(d, x).value.start then x.start else x.end;
      var j := if g == WrappingOf(d, y).value.start then y.start else y.end;
      assert Transform(d.ops, i) == Some(g) && Transform(d.ops, j) == Some(g);
      SamePlaceSamePosition(d.ops, i, j);
      assert HasEndpoint(x, i) && HasEndpoint(y, i);
    }
    DistinctPlacesCommute(d, xs, ys);
  }

  lemma SamePlaceSamePosition(ops: seq<Op<char>>, i: nat, j: nat)
    requires InsertsOnly(ops) && Transform(ops, i) == Transform(ops, j)
    ensures i == j
  {
    if i < j {
      TransformStrict(ops, i, j);
    } else if j < i {
      TransformStrict(ops, j, i);
    }
  }

  // ----- orders that show

  /** With shared endpoints the order shows: the later command comes first at both gaps, so its markers
      cross those of the earlier one. */
  lemma SharedEndpointsDoNotCommute(version: Version)
    ensures var d := Doc("a", [], version);
            var bold, code := Command.Bold(0, 1), Command.Code(0, 1);
            && Valid(d)
            && Working(ExecAll(d, [code, bold])) == "**`a**`"
            && Working(ExecAll(d, [bold, code])) == "`**a`**"
  {
    var d := Doc("a", [], version);
    var bold, code := Command.Bold(0, 1), Command.Code(0, 1);
    assert Renumbering.Renumber("a") == "a";
    assert WrappingOf(d, bold) == Some(Wrapping(0, 1, "**", "**"));
    assert WrappingOf(d, code) == Some(Wrapping(0, 1, "`", "`"));
    TwoOnOneCharacter(d, code, bold, "**", "`", "**", "`");
    TwoOnOneCharacter(d, bold, code, "`", "**", "`", "**");
  }

  lemma TwoOnOneCharacter(d: Doc, x: Command, y: Command, a: string, b: string, a': string, b': string)
    requires Valid(d) && |Working(d)| == 1 && IsRange(x) && IsRange(y)
    requires WrappingOf(d, y) == Some(Wrapping(0, 1, a, a')) && WrappingOf(d, x) == Some(Wrapping(0, 1, b, b'))
    ensures Working(ExecAll(d, [x, y])) == (a + b) + Working(d) + (a' + b')
  {
    var w, gaps := Working(d), Gaps(d, [x, y]);
    FormattingClosedForm(d, [x, y], 0);
    TwoGaps(d, x, y, 0);
    TwoGaps(d, x, y, 1);
    Outside(a, a');
    Outside(b, b');
    LayoutOfOne(w, gaps);
  }

  lemma Outside(open: string, close: string)
    ensures MarkerAt(Some(Wrapping(0, 1, open, close)), 0) == open
    ensures MarkerAt(Some(Wrapping(0, 1, open, close)), 1) == close
  {
  }

  lemma LayoutOfOne(text: string, gaps: seq<string>)
    requires |text| == 1 && |gaps| == 2
    ensures Layout(text, gaps) == gaps[0] + text + gaps[1]
  {
    assert [text[0]] == text;
    assert Before(text, gaps, 1) == "" + (gaps[0] + text);
  }

  lemma LayoutOfTwo(text: string, gaps: seq<string>)
    requires |text| == 2 && |gaps| == 3
    ensures Layout(text, gaps) == gaps[0] + [text[0]] + gaps[1] + [text[1]] + gaps[2]
  {
    assert Before(text, gaps, 1) == "" + (gaps[0] + [text[0]]);
    Assoc(gaps[0] + [text[0]], gaps[1], [text[1]]);
  }

  lemma NoGapText(d: Doc, marker: string, g: nat)
    ensures marker + GapText(d, [], g) == marker
  {
  }

  lemma TwoGaps(d: Doc, x: Command, y: Command, g: nat)
    ensures GapText(d, [x, y], g) == MarkerAt(WrappingOf(d, y), g) + MarkerAt(WrappingOf(d, x), g)
  {
    hide GapText, MarkerAt, WrappingOf;
    NoGapText(d, MarkerAt(WrappingOf(d, x), g), g);
    GapTextSnoc(d, [], x, g);
    assert [] + [x] == [x];
    GapTextSnoc(d, [x], y, g);
    assert [x] + [y] == [x, y];
  }

  /** A pending deletion can carry distinct endpoints to one place; then the order shows as well. */
  lemma DeletionsMergeEndpoints(version: Version)
    ensures var d := Doc("abc", [Op.Delete(1, 1)], version);
            var bold, code := Command.Bold(0, 1), Command.Code(2, 3);
            && Valid(d) && DistinctEndpoints([bold, code])
            && Exec(Doc("abc", [], version), version, Command.Del(1, 1)) == (Success, d)
            && Working(ExecAll(d, [bold, code])) == "**a`**c`"
            && Working(ExecAll(d, [code, bold])) == "**a**`c`"
  {
    var d := Doc("abc", [Op.Delete(1, 1)], version);
    var bold, code := Command.Bold(0, 1), Command.Code(2, 3);
    CutDocument(version);
    DistinctPair(bold, code);
    TextsAroundTheCut(d, bold, code);
  }

  lemma TextsAroundTheCut(d: Doc, bold: Command, code: Command)
    requires Valid(d) && Working(d) == "ac" && IsRange(bold) && IsRange(code)
    requires WrappingOf(d, bold) == Some(Wrapping(0, 1, "**", "**"))
    requires WrappingOf(d, code) == Some(Wrapping(1, 2, "`", "`"))
    ensures Working(ExecAll(d, [bold, code])) == "**a`**c`"
    ensures Working(ExecAll(d, [code, bold])) == "**a**`c`"
  {
    MarkersAroundTheCut(d, bold, code);
    TwoAroundTheCut(d, bold, code);
    TwoAroundTheCut(d, code, bold);
    Spelled();
  }

  lemma Spelled()
    ensures "**" + "a" + "`**" + "c" + "`" == "**a`**c`"
    ensures "**" + "a" + "**`" + "c" + "`" == "**a**`c`"
  {
  }

  lemma DistinctPair(x: Command, y: Command)
    requires IsRange(x) && IsRange(y) && x.start < x.end < y.start < y.end
    ensures DistinctEndpoints([x, y])
  {
    assert [x, y][0] == x && [x, y][1] == y;
  }

  lemma MarkersAroundTheCut(d: Doc, bold: Command, code: Command)
    requires WrappingOf(d, bold) == Some(Wrapping(0, 1, "**", "**"))
    requires WrappingOf(d, code) == Some(Wrapping(1, 2, "`", "`"))
    ensures BothAt(d, bold, code, 0) == "**" && BothAt(d, code, bold, 0) == "**"
    ensures BothAt(d, bold, code, 1) == "`**" && BothAt(d, code, bold, 1) == "**`"
    ensures BothAt(d, bold, code, 2) == "`" && BothAt(d, code, bold, 2) == "`"
  {
  }

  lemma CutTransforms(cut: seq<Op<char>>)
    requires cut == [Op.Delete(1, 1)]
    ensures Transform(cut, 0) == Some(0) && Transform(cut, 1) == Some(1)
    ensures Transform(cut, 2) == Some(1) && Transform(cut, 3) == Some(2)
  {
    assert cut[..0] == [];
  }

  lemma CutQueue(version: Version)
    ensures var d := Doc("abc", [Op.Delete(1, 1)], version);
            Exec(Doc("abc", [], version), version, Command.Del(1, 1)) == (Success, d)
  {
    assert [] + [Op<char>.Delete(1, 1)] == [Op.Delete(1, 1)];
  }

  lemma CutText(version: Version)
    ensures var d := Doc("abc", [Op.Delete(1, 1)], version); Valid(d) && Working(d) == "ac"
  {
    assert Renumbering.Renumber("abc") == "abc";
    CutMeans("abc", 1, 1);
    assert "abc"[..1] + "abc"[2..] == "ac";
  }

  /** The document "abc" with its second character deleted, and where two range commands go in it. */
  lemma CutDocument(version: Version)
    ensures var d := Doc("abc", [Op.Delete(1, 1)], version);
            && Valid(d) && Working(d) == "ac"
            && Exec(Doc("abc", [], version), version, Command.Del(1, 1)) == (Success, d)
            && WrappingOf(d, Command.Bold(0, 1)) == Some(Wrapping(0, 1, "**", "**"))
            && WrappingOf(d, Command.Code(2, 3)) == Some(Wrapping(1, 2, "`", "`"))
  {
    hide Transform, ApplyAll, WellFormed, Exec;
    CutTransforms([Op.Delete(1, 1)]);
    CutText(version);
    CutQueue(version);
  }

  lemma TwoAroundTheCut(d: Doc, x: Command, y: Command)
    requires Valid(d) && Working(d) == "ac" && IsRange(x) && IsRange(y)
    ensures Working(ExecAll(d, [x, y])) == BothAt(d, x, y, 0) + "a" + BothAt(d, x, y, 1) + "c" + BothAt(d, x, y, 2)
  {
    FormattingClosedForm(d, [x, y], 0);
    TwoGaps(d, x, y, 0);
    TwoGaps(d, x, y, 1);
    TwoGaps(d, x, y, 2);
    LayoutOfTwo("ac", Gaps(d, [x, y]));
  }

  function BothAt(d: Doc, x: Command, y: Command, g: nat): string {
    MarkerAt(WrappingOf(d, y), g) + MarkerAt(WrappingOf(d, x), g)
  }
}
