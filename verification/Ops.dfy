/** The queue of pending operations of one document, and how it acts on texts and on positions.

    The queue is generic in the element type so that the same definitions act on plain texts
    and on the provenance-tagged texts of module Provenance. All folds peel off the last
    operation: the queue only ever grows at its tail. */
module Ops {
  import opened Wrappers

  /** A position is an index into the text left by the operations queued before this one. */
  datatype Op<T> = Insert(pos: nat, data: seq<T>) | Delete(pos: nat, len: nat)

  /** One operation on a text; positions and lengths beyond the end are cut back. */
  function Apply<T>(text: seq<T>, op: Op<T>): seq<T> {
    match op
    case Insert(pos, data) =>
      var p := Min(pos, |text|);
      text[..p] + data + text[p..]
    case Delete(pos, len) =>
      var p := Min(pos, |text|);
      var l := if p + len > |text| then |text| - p else len;
      text[..p] + text[p + l..]
  }

  /** The text after the whole queue. */
  function ApplyAll<T>(text: seq<T>, ops: seq<Op<T>>): seq<T> {
    if |ops| == 0 then text else Apply(ApplyAll(text, ops[..|ops| - 1]), ops[|ops| - 1])
  }

  predicate InBounds<T>(n: nat, op: Op<T>) {
    match op
    case Insert(pos, _) => pos <= n
    case Delete(pos, len) => pos + len <= n
  }

  /** Every operation is in bounds for the text left by the ones before it. */
  predicate WellFormed<T>(text: seq<T>, ops: seq<Op<T>>)
    decreases |ops|
  {
    |ops| == 0 ||
    (WellFormed(text, ops[..|ops| - 1]) && InBounds(|ApplyAll(text, ops[..|ops| - 1])|, ops[|ops| - 1]))
  }

  /** Carries a position over one operation; None when it lies strictly inside a deletion. */
  function TransformStep<T>(op: Op<T>, p: nat): Option<nat> {
    match op
    case Insert(pos, data) => Some(if pos < p then p + |data| else p)
    case Delete(pos, len) =>
      if pos < p < pos + len then None
      else if pos < p then Some(p - len)
      else Some(p)
  }

  /** Carries a position of the original text over the whole queue. */
  function Transform<T>(ops: seq<Op<T>>, p: nat): Option<nat> {
    if |ops| == 0 then Some(p)
    else
      match Transform(ops[..|ops| - 1], p)
      case None => None
      case Some(q) => TransformStep(ops[|ops| - 1], q)
  }

  function TotalInserted<T>(ops: seq<Op<T>>): nat {
    if |ops| == 0 then 0
    else TotalInserted(ops[..|ops| - 1]) + (if ops[|ops| - 1].Insert? then |ops[|ops| - 1].data| else 0)
  }

  function TotalDeleted<T>(ops: seq<Op<T>>): nat {
    if |ops| == 0 then 0
    else TotalDeleted(ops[..|ops| - 1]) + (if ops[|ops| - 1].Delete? then ops[|ops| - 1].len else 0)
  }

  // ----- growing the queue

  lemma Snoc<T>(text: seq<T>, ops: seq<Op<T>>, op: Op<T>, p: nat)
    ensures ApplyAll(text, ops + [op]) == Apply(ApplyAll(text, ops), op)
    ensures WellFormed(text, ops + [op]) <==> WellFormed(text, ops) && InBounds(|ApplyAll(text, ops)|, op)
    ensures Transform(ops + [op], p) ==
            match Transform(ops, p) { case None => None case Some(q) => TransformStep(op, q) }
  {
    assert (ops + [op])[..|ops|] == ops;
  }

  lemma {:induction false} Append<T>(text: seq<T>, ops: seq<Op<T>>, more: seq<Op<T>>)
    ensures ApplyAll(text, ops + more) == ApplyAll(ApplyAll(text, ops), more)
    ensures WellFormed(text, ops + more) <==> WellFormed(text, ops) && WellFormed(ApplyAll(text, ops), more)
    decreases |more|
  {
    if |more| == 0 {
      assert ops + more == ops;
    } else {
      var init, last := more[..|more| - 1], more[|more| - 1];
      assert ops + more == (ops + init) + [last];
      Append(text, ops, init);
      Snoc(text, ops + init, last, 0);
    }
  }

  /** A position lost in a prefix of the queue stays lost. */
  lemma {:induction false} TransformLost<T>(ops: seq<Op<T>>, k: nat, p: nat)
    requires k <= |ops| && Transform(ops[..k], p).None?
    ensures Transform(ops, p).None?
    decreases |ops|
  {
    if k == |ops| {
      assert ops[..k] == ops;
    } else {
      assert ops[..|ops| - 1][..k] == ops[..k];
      TransformLost(ops[..|ops| - 1], k, p);
    }
  }

  // ----- conservation

  /** On a well-formed queue no clamp of Apply takes effect ... */
  lemma ClampsNeverAlter<T>(text: seq<T>, ops: seq<Op<T>>, k: nat)
    requires WellFormed(text, ops) && k < |ops|
    ensures InBounds(|ApplyAll(text, ops[..k])|, ops[k])
    ensures var before := ApplyAll(text, ops[..k]);
            ApplyAll(text, ops[..k + 1]) ==
            match ops[k] {
              case Insert(pos, data) => before[..pos] + data + before[pos..]
              case Delete(pos, len) => before[..pos] + before[pos + len..]
            }
  {
    PrefixWellFormed(text, ops, k + 1);
    assert ops[..k + 1][..k] == ops[..k];
  }

  lemma {:induction false} PrefixWellFormed<T>(text: seq<T>, ops: seq<Op<T>>, k: nat)
    requires WellFormed(text, ops) && k <= |ops|
    ensures WellFormed(text, ops[..k])
    decreases |ops|
  {
    if k == |ops| {
      assert ops[..k] == ops;
    } else {
      assert ops[..|ops| - 1][..k] == ops[..k];
      PrefixWellFormed(text, ops[..|ops| - 1], k);
    }
  }

  /** ... so the length of the working text is accounted for exactly. */
  lemma {:induction false} Conservation<T>(text: seq<T>, ops: seq<Op<T>>)
    requires WellFormed(text, ops)
    ensures |ApplyAll(text, ops)| + TotalDeleted(ops) == |text| + TotalInserted(ops)
    decreases |ops|
  {
    if |ops| == 0 {
    } else {
      Conservation(text, ops[..|ops| - 1]);
    }
  }

  // ----- positions

  lemma {:induction false} TransformBounded<T>(text: seq<T>, ops: seq<Op<T>>, p: nat)
    requires WellFormed(text, ops) && p <= |text|
    ensures Transform(ops, p).Some? ==> Transform(ops, p).value <= |ApplyAll(text, ops)|
    decreases |ops|
  {
    if |ops| == 0 {
    } else {
      TransformBounded(text, ops[..|ops| - 1], p);
    }
  }

  lemma {:induction false} TransformMonotone<T>(ops: seq<Op<T>>, p: nat, q: nat)
    requires p <= q
    requires Transform(ops, p).Some? && Transform(ops, q).Some?
    ensures Transform(ops, p).value <= Transform(ops, q).value
    decreases |ops|
  {
    if |ops| == 0 {
    } else {
      TransformMonotone(ops[..|ops| - 1], p, q);
    }
  }

  predicate InsertsOnly<T>(ops: seq<Op<T>>) {
    forall k :: 0 <= k < |ops| ==> ops[k].Insert?
  }

  /** Without deletions no position is lost and distinct positions stay distinct. */
  lemma {:induction false} TransformStrict<T>(ops: seq<Op<T>>, p: nat, q: nat)
    requires InsertsOnly(ops) && p < q
    ensures Transform(ops, p).Some? && Transform(ops, q).Some?
    ensures Transform(ops, p).value < Transform(ops, q).value
    decreases |ops|
  {
    if |ops| == 0 {
    } else {
      TransformStrict(ops[..|ops| - 1], p, q);
    }
  }
}
