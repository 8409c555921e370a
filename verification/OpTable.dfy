/** The global table of pending queues: a linked list with at most one node per document. It behaves as if
    every document had a queue of its own. */
module OpTables {
  import opened Wrappers
  import opened Ops

  /** Documents are told apart by their addresses. */
  type Address = nat

  datatype Slot = Slot(doc: Address, ops: seq<Op<char>>)

  function Lookup(slots: seq<Slot>, doc: Address): Option<seq<Op<char>>> {
    if |slots| == 0 then None
    else if slots[0].doc == doc then Some(slots[0].ops)
    else Lookup(slots[1..], doc)
  }

  function QueueIn(slots: seq<Slot>, doc: Address): seq<Op<char>> {
    match Lookup(slots, doc)
    case None => []
    case Some(ops) => ops
  }

  predicate OneSlotEach(slots: seq<Slot>) {
    forall i, j :: 0 <= i < j < |slots| ==> slots[i].doc != slots[j].doc
  }

  // ----- lookups in changed tables

  lemma {:induction false} LookupAt(slots: seq<Slot>, doc: Address, i: nat)
    requires i < |slots| && slots[i].doc == doc
    requires forall k :: 0 <= k < i ==> slots[k].doc != doc
    ensures Lookup(slots, doc) == Some(slots[i].ops)
  {
    if i == 0 {
    } else {
      LookupAt(slots[1..], doc, i - 1);
    }
  }

  lemma {:induction false} LookupAbsent(slots: seq<Slot>, doc: Address)
    requires forall k :: 0 <= k < |slots| ==> slots[k].doc != doc
    ensures Lookup(slots, doc) == None
  {
    if |slots| == 0 {
    } else {
      LookupAbsent(slots[1..], doc);
    }
  }

  /** Changing the queue of one slot changes one lookup. */
  lemma {:induction false} LookupUpdated(slots: seq<Slot>, i: nat, ops: seq<Op<char>>, doc: Address)
    requires OneSlotEach(slots) && i < |slots|
    ensures Lookup(slots[i := Slot(slots[i].doc, ops)], doc) ==
            if doc == slots[i].doc then Some(ops) else Lookup(slots, doc)
  {
    var changed := slots[i := Slot(slots[i].doc, ops)];
    if i > 0 {
      LookupUpdated(slots[1..], i - 1, ops, doc);
      assert changed[1..] == slots[1..][i - 1 := Slot(slots[i].doc, ops)];
    } else {
      assert changed[1..] == slots[1..];
    }
  }

  /** Dropping one slot changes one lookup. */
  lemma {:induction false} LookupWithout(slots: seq<Slot>, i: nat, doc: Address)
    requires OneSlotEach(slots) && i < |slots|
    ensures Lookup(WithoutAt(slots, i), doc) == if doc == slots[i].doc then None else Lookup(slots, doc)
  {
    if i > 0 {
      LookupWithout(slots[1..], i - 1, doc);
      assert WithoutAt(slots, i)[1..] == WithoutAt(slots[1..], i - 1);
    } else {
      assert WithoutAt(slots, 0) == slots[1..];
      if doc == slots[0].doc {
        LookupAbsent(slots[1..], doc);
      }
    }
  }

  lemma OneSlotEachWithout(slots: seq<Slot>, i: nat)
    requires OneSlotEach(slots) && i < |slots|
    ensures OneSlotEach(WithoutAt(slots, i))
  {
    var rest := WithoutAt(slots, i);
    forall j, k | 0 <= j < k < |rest|
      ensures rest[j].doc != rest[k].doc
    {
      assert rest[j] == slots[if j < i then j else j + 1];
      assert rest[k] == slots[if k < i then k else k + 1];
    }
  }

  // ----- the list

  class OpList {
    const doc: Address
    var ops: seq<Op<char>>
    var next: OpList?

    constructor (doc: Address, next: OpList?)
      ensures this.doc == doc && ops == [] && this.next == next
    {
      this.doc, this.next, ops := doc, next, [];
    }
  }

  ghost function SlotsOf(spine: seq<OpList>): (slots: seq<Slot>)
    reads spine
    ensures |slots| == |spine|
  {
    seq(|spine|, (i: nat) requires i < |spine| reads spine => Slot(spine[i].doc, spine[i].ops))
  }

  lemma SlotsCons(node: OpList, spine: seq<OpList>)
    ensures SlotsOf([node] + spine) == [Slot(node.doc, node.ops)] + SlotsOf(spine)
  {
  }

  class OpTable {
    var head: OpList?
    ghost var spine: seq<OpList>

    ghost function At(i: nat): OpList?
      reads this
    {
      if i < |spine| then spine[i] else null
    }

    ghost predicate Linked()
      reads this, spine
    {
      head == At(0) && forall i :: 0 <= i < |spine| ==> spine[i].next == At(i + 1)
    }

    ghost function Slots(): (slots: seq<Slot>)
      reads this, spine
      ensures |slots| == |spine|
    {
      SlotsOf(spine)
    }

    ghost predicate Ok()
      reads this, spine
    {
      Linked() && Distinct(spine) && OneSlotEach(Slots())
    }

    /** The pending operations of a document; a document without a node has none. */
    ghost function Queue(doc: Address): seq<Op<char>>
      reads this, spine
    {
      QueueIn(Slots(), doc)
    }

    /** What a change to the queue of one document keeps: the table is a list with one node per document, made
        of old and new nodes, and every other document has the queue it had. */
    twostate predicate Keeps(doc: Address)
      reads this, spine
    {
      && Ok()
      && (forall d :: d != doc ==> Queue(d) == old(Queue(d)))
      && (forall i :: 0 <= i < |spine| ==> spine[i] in old(spine) || fresh(spine[i]))
    }

    constructor ()
      ensures Ok() && spine == [] && forall d :: Queue(d) == []
    {
      head, spine := null, [];
      new;
      assert Slots() == [];
    }

    method FindOps(doc: Address) returns (node: OpList?, ghost i: nat)
      requires Ok()
      ensures node == null <==> Lookup(Slots(), doc) == None
      ensures node != null ==> i < |spine| && node == spine[i] && node.doc == doc
      ensures node != null ==> Lookup(Slots(), doc) == Some(node.ops)
    {
      node, i := head, 0;
      while node != null
        invariant i <= |spine| && node == At(i)
        invariant forall k :: 0 <= k < i ==> Slots()[k].doc != doc
        decreases |spine| - i
      {
        if node.doc == doc {
          LookupAt(Slots(), doc, i);
          return;
        }
        node := node.next;
        i := i + 1;
      }
      LookupAbsent(Slots(), doc);
    }

    /** The node of a document; a new one with an empty queue is put in front. */
    method GetOrCreateOps(doc: Address) returns (node: OpList, ghost i: nat)
      requires Ok()
      modifies this
      ensures Ok()
      ensures i < |spine| && node == spine[i] && node.doc == doc
      ensures Slots() == if Lookup(old(Slots()), doc).Some? then old(Slots()) else [Slot(doc, [])] + old(Slots())
      ensures Lookup(Slots(), doc) == Some(node.ops)
      ensures node in old(spine) || fresh(node)
      ensures forall k :: 0 <= k < |spine| ==> spine[k] in old(spine) || fresh(spine[k])
      ensures forall d :: Lookup(Slots(), d) ==
                if d == doc then Some(QueueIn(old(Slots()), doc)) else Lookup(old(Slots()), d)
    {
      var existing;
      existing, i := FindOps(doc);
      if existing != null {
        node := existing;
        return;
      }
      PresentDocs(Slots(), doc);
      node := new OpList(doc, head);
      i := 0;
      DistinctCons(node, spine);
      Prepend(node);
    }

    method Prepend(node: OpList)
      requires Linked() && node !in spine && node.next == head
      modifies this
      ensures Linked() && spine == [node] + old(spine)
      ensures Slots() == [Slot(node.doc, node.ops)] + old(Slots())
    {
      hide SlotsOf;
      ghost var was := spine;
      SlotsCons(node, was);
      head := node;
      spine := [node] + spine;
      forall i | 0 <= i < |spine|
        ensures spine[i].next == At(i + 1)
      {
        if i > 0 {
          assert spine[i] == was[i - 1];
        }
      }
    }

    /** Appends one operation to the queue of one document and touches no other queue. */
    method EnqueueOp(doc: Address, op: Op<char>)
      requires Ok()
      modifies this, spine
      ensures Ok()
      ensures forall d :: Lookup(Slots(), d) ==
                if d != doc then Lookup(old(Slots()), d)
                else Some(QueueIn(old(Slots()), doc) + [op])
      ensures Queue(doc) == old(Queue(doc)) + [op] && Keeps(doc)
    {
      var node;
      ghost var i;
      node, i := GetOrCreateOps(doc);
      SetOps(node, i, node.ops + [op]);
    }

    /** Empties the queue of one document and touches no other queue. */
    method ClearOps(doc: Address)
      requires Ok()
      modifies this, spine
      ensures Ok()
      ensures forall d :: Lookup(Slots(), d) ==
                if d == doc && Lookup(old(Slots()), doc).Some? then Some([]) else Lookup(old(Slots()), d)
      ensures Queue(doc) == [] && Keeps(doc)
    {
      var node;
      ghost var i;
      node, i := FindOps(doc);
      if node == null {
        return;
      }
      SetOps(node, i, []);
    }

    method SetOps(node: OpList, ghost i: nat, ops: seq<Op<char>>)
      requires Ok() && i < |spine| && node == spine[i]
      modifies node`ops
      ensures Ok()
      ensures forall d :: Lookup(Slots(), d) == if d == node.doc then Some(ops) else Lookup(old(Slots()), d)
    {
      ghost var was := Slots();
      node.ops := ops;
      assert Slots() == was[i := Slot(was[i].doc, ops)];
      forall d
        ensures Lookup(Slots(), d) == if d == node.doc then Some(ops) else Lookup(was, d)
      {
        LookupUpdated(was, i, ops, d);
      }
    }

    method Unlink(prev: OpList?, cur: OpList, ghost i: nat)
      requires Linked() && Distinct(spine) && i < |spine| && cur == spine[i]
      requires if i == 0 then prev == null else prev == spine[i - 1]
      modifies this, (set n | n in spine)`next
      ensures Linked() && spine == WithoutAt(old(spine), i)
    {
      if prev == null {
        head := cur.next;
      } else {
        prev.next := cur.next;
      }
      spine := WithoutAt(spine, i);
      ghost var was := old(spine);
      forall k | 0 <= k < |spine|
        ensures spine[k].next == At(k + 1)
      {
        if k + 1 < i {
          assert spine[k] == was[k] && spine[k + 1] == was[k + 1] && was[k] != was[i - 1];
        } else if k + 1 == i {
          assert spine[k] == prev;
        } else {
          assert spine[k] == was[k + 1] && (i > 0 ==> was[k + 1] != was[i - 1]);
        }
      }
    }

    method FreeNode(prev: OpList?, cur: OpList, ghost i: nat)
      requires Ok() && i < |spine| && cur == spine[i]
      requires if i == 0 then prev == null else prev == spine[i - 1]
      modifies this, spine
      ensures Ok()
      ensures forall d :: Lookup(Slots(), d) == if d == cur.doc then None else Lookup(old(Slots()), d)
      ensures Queue(cur.doc) == [] && Keeps(cur.doc)
    {
      hide Lookup, Linked, OneSlotEach, Distinct;
      ghost var was := Slots();
      DistinctWithout(spine, i);
      OneSlotEachWithout(was, i);
      forall d
        ensures Lookup(WithoutAt(was, i), d) == if d == cur.doc then None else Lookup(was, d)
      {
        LookupWithout(was, i, d);
      }
      Unlink(prev, cur, i);
      SlotsWithout(old(spine), i, was);
    }

    /** Unlinks the node of one document and touches no other queue. */
    method FreeOps(doc: Address)
      requires Ok()
      modifies this, spine
      ensures Ok()
      ensures forall d :: Lookup(Slots(), d) == if d == doc then None else Lookup(old(Slots()), d)
      ensures Queue(doc) == [] && Keeps(doc)
    {
      var prev: OpList? := null;
      var cur := head;
      ghost var i := 0;
      while cur != null
        invariant i <= |spine| && cur == At(i)
        invariant if i == 0 then prev == null else prev == spine[i - 1]
        invariant forall k :: 0 <= k < i ==> Slots()[k].doc != doc
        decreases |spine| - i
      {
        if cur.doc == doc {
          FreeNode(prev, cur, i);
          return;
        }
        prev := cur;
        cur := cur.next;
        i := i + 1;
      }
      LookupAbsent(Slots(), doc);
    }
  }

  lemma SlotsWithout(spine: seq<OpList>, i: nat, slots: seq<Slot>)
    requires i < |spine| && SlotsOf(spine) == slots
    ensures SlotsOf(WithoutAt(spine, i)) == WithoutAt(slots, i)
  {
  }

  lemma {:induction false} PresentDocs(slots: seq<Slot>, doc: Address)
    requires Lookup(slots, doc) == None
    ensures forall k :: 0 <= k < |slots| ==> slots[k].doc != doc
  {
    if |slots| == 0 {
    } else {
      PresentDocs(slots[1..], doc);
      assert forall k :: 1 <= k < |slots| ==> slots[k] == slots[1..][k - 1];
    }
  }
}
