/** The sorted list between a `head` and a `tail` sentinel, with one lock
    per node taken hand over hand. `add` links a new node in front of the
    first real node whose key is >= t (so in front of equal keys);
    `remove` unlinks the first real node whose key is t. When no real key
    is >= t, `remove` walks on to the tail and compares t with the tail's
    key, which is null in the source: that comparison throws
    NullPointerException, after which both held locks are released. The
    sentinels' keys are not otherwise read; they are 0 here. The ghost set
    `held` tracks the locks of the running operation as in the
    fine-grained tree; interleavings are not modelled. */
module FineGrainedList {
  import opened SortedSeq
  import opened ListNode
  import opened Exceptions
  import opened Locks

  class FineGrainedList {
    const head: Node
    const tail: Node
    /** Ghost list of the real nodes between the sentinels, in order. */
    ghost var Spine: seq<Node>
    ghost var Repr: set<object>

    ghost predicate Valid()
      reads this, Repr
    {
      this in Repr && head in Repr && tail in Repr && (forall x :: x in Spine ==> x in Repr) &&
      Chained([head] + Spine + [tail]) && Sorted(Keys(Spine))
    }

    /** The keys of the real nodes, the abstract value of the list. */
    ghost function Contents(): seq<int>
      reads this
    {
      Keys(Spine)
    }

    constructor ()
      ensures Valid() && fresh(Repr) && Contents() == []
    {
      var last := new Node(0, null);
      var first := new Node(0, last);
      head, tail := first, last;
      Spine := [];
      Repr := {this, first, last};
      new;
      assert [head] + Spine + [tail] == [head, tail];
    }

    /** Insert one more occurrence of t in front of the first key >= t. */
    method Add(t: int) returns (ghost held: set<Node>)
      requires Valid()
      modifies Repr
      ensures Valid() && fresh(Repr - old(Repr))
      ensures Contents() == Insert(old(Contents()), t)
      ensures held == {}
    {
      held := Acquire({}, head);
      var pred := head;
      FirstReal(head, Spine, tail);
      var curr: Node := pred.next;
      held := Acquire(held, curr);
      ghost var i := 0;
      if curr != tail {
        pred, curr, i, held := Walk(head, curr, tail, t, Spine, held);
      }
      // with an empty list, pred and curr are the two sentinels: the new
      // node goes behind the head, in front of the tail
      var n;
      n, Spine := LinkNew(pred, curr, t, head, tail, Spine, i, held);
      Repr := Repr + {n};
      held := Release(held, curr);
      held := Release(held, pred);
    }

    /** Remove one occurrence of t; throw when no key is >= t. */
    method Remove(t: int) returns (outcome: Outcome, ghost held: set<Node>)
      requires Valid()
      modifies Repr
      ensures Valid() && Repr == old(Repr)
      ensures outcome == NullPointerException <==> forall x :: x in old(Contents()) ==> x < t
      ensures Contents() == RemoveOne(old(Contents()), t)
      ensures held == {}
    {
      held := Acquire({}, head);
      var pred := head;
      FirstReal(head, Spine, tail);
      var curr: Node := pred.next;
      held := Acquire(held, curr);
      ghost var i;
      pred, curr, i, held := Walk(head, curr, tail, t, Spine, held);
      ghost var s := Keys(Spine);
      LowerBoundEnd(s, t);
      if curr == tail {
        // t.compareTo(tail.key) on the null key throws
        held := Release(held, curr);
        held := Release(held, pred);
        outcome := NullPointerException;
        return;
      }
      assert curr.key == s[i] >= t && s[i] in s;
      if t == curr.key {
        Spine := DeleteAt(pred, curr, head, tail, Spine, i, held);
      }
      held := Release(held, curr);
      held := Release(held, pred);
      outcome := Normal;
    }
  }

  /** The head's successor is the first real node, or the tail exactly
      when there is none. */
  lemma FirstReal(head: Node, sp: seq<Node>, tail: Node)
    requires Chained([head] + sp + [tail])
    ensures head.next == (sp + [tail])[0]
    ensures head.next == tail <==> sp == []
    ensures head.next != head
  {
    FrameFacts(head, sp, tail);
  }

  /** How the real nodes sit between the two sentinels. */
  lemma FrameFacts(head: Node, sp: seq<Node>, tail: Node)
    requires Chained([head] + sp + [tail])
    ensures ([head] + sp + [tail])[0] == head && ([head] + sp + [tail])[|sp| + 1] == tail
    ensures forall k :: 0 <= k < |sp| ==> ([head] + sp + [tail])[k + 1] == sp[k]
    ensures head.next == (sp + [tail])[0]
    ensures head != tail && head !in sp && tail !in sp
  {
    var full := [head] + sp + [tail];
    assert full[1] == (sp + [tail])[0];
    assert forall k :: 0 <= k < |sp| ==> full[k + 1] == sp[k];
  }

  /** The locked walk shared by `add` and `remove`, from the head and its
      successor first, both locked: it stops at the first real node whose
      key is >= t or at the tail. i is the lower bound of t in the keys,
      curr the node at that position (the tail at the end) and pred the
      node before it (the head at the start); exactly their two locks are
      held on return. */
  method Walk(head: Node, first: Node, tail: Node, t: int, ghost sp: seq<Node>, ghost held0: set<Node>)
    returns (pred: Node, curr: Node, ghost i: nat, ghost held: set<Node>)
    requires Chained([head] + sp + [tail]) && first == head.next && held0 == {head, first}
    ensures i == LowerBound(Keys(sp), t)
    ensures pred == ([head] + sp)[i] && curr == (sp + [tail])[i]
    ensures curr == tail <==> i == |sp|
    ensures held == {pred, curr} && pred != curr
  {
    ghost var full := [head] + sp + [tail];
    FrameFacts(head, sp, tail);
    pred, curr := head, first;
    held := held0;
    i := 0;
    while curr != tail && t > curr.key
      invariant 0 <= i <= |sp| && pred == full[i] && curr == full[i + 1]
      invariant forall j :: 0 <= j < i ==> sp[j].key < t
      invariant held == {pred, curr} && pred != curr
      decreases |sp| - i
    {
      assert i < |sp| && curr == sp[i];
      assert curr.next == full[i + 2];
      var next: Node := curr.next;
      assert next == full[i + 2];
      HandOverHand(pred, curr, next);
      held := Release(held, pred);
      pred := curr;
      curr := next;
      held := Acquire(held, curr);
      i := i + 1;
    }
    if i < |sp| {
      assert curr == sp[i] && curr != tail;
    }
    LowerBoundAt(Keys(sp), t, i);
  }

  /** The splice of `add`: a new node for t, pointing at curr, the node
      at the lower bound i of t (or the tail), is linked behind pred, the
      node before it, whose lock is held. */
  method LinkNew(pred: Node, curr: Node, t: int, ghost head: Node, ghost tail: Node, ghost sp: seq<Node>, ghost i: nat, ghost held: set<Node>)
    returns (n: Node, ghost r: seq<Node>)
    requires Chained([head] + sp + [tail]) && i <= |sp| && pred == ([head] + sp)[i] && curr == (sp + [tail])[i]
    requires i == LowerBound(Keys(sp), t) && Sorted(Keys(sp))
    requires pred in held
    modifies pred
    ensures fresh(n) && Chained([head] + r + [tail]) && (forall x :: x in r ==> x in sp || x == n)
    ensures Keys(r) == Insert(Keys(sp), t) && Sorted(Keys(r))
  {
    ghost var full := [head] + sp + [tail];
    assert curr == full[i + 1];
    n := new Node(t, curr);
    ghost var linked := Link(pred, n, full, i + 1);
    r := sp[..i] + [n] + sp[i..];
    FramedInsert(head, sp, tail, i, n);
    InsertedKeys(sp, i, n);
  }

  /** Inserting behind position i of the framed chain is inserting at
      position i among the real nodes. */
  lemma FramedInsert(head: Node, sp: seq<Node>, tail: Node, i: nat, n: Node)
    requires i <= |sp|
    ensures var full := [head] + sp + [tail];
      full[..i + 1] + [n] + full[i + 1..] == [head] + (sp[..i] + [n] + sp[i..]) + [tail]
  {
    var full := [head] + sp + [tail];
    assert full[..i + 1] == [head] + sp[..i] && full[i + 1..] == sp[i..] + [tail];
  }

  /** Deleting position i + 1 of the framed chain is deleting position i
      among the real nodes. */
  lemma FramedDelete(head: Node, sp: seq<Node>, tail: Node, i: nat)
    requires i < |sp|
    ensures var full := [head] + sp + [tail];
      full[..i + 1] + full[i + 2..] == [head] + (sp[..i] + sp[i + 1..]) + [tail]
  {
    var full := [head] + sp + [tail];
    assert full[..i + 1] == [head] + sp[..i] && full[i + 2..] == sp[i + 1..] + [tail];
  }

  /** Inserting a node at the lower bound of its key inserts the key. */
  lemma InsertedKeys(sp: seq<Node>, i: nat, n: Node)
    requires i == LowerBound(Keys(sp), n.key) && Sorted(Keys(sp))
    ensures Keys(sp[..i] + [n] + sp[i..]) == Insert(Keys(sp), n.key)
    ensures Sorted(Keys(sp[..i] + [n] + sp[i..]))
  {
    KeysInsert(sp, i, n);
    InsertBeforeEqualKeys(Keys(sp), n.key);
    InsertSpec(Keys(sp), n.key);
  }

  /** The splice of `remove`: curr, the real node at the lower bound i of
      its key, is unlinked from pred, the node before it; both locks are
      held. */
  method DeleteAt(pred: Node, curr: Node, ghost head: Node, ghost tail: Node, ghost sp: seq<Node>, ghost i: nat, ghost held: set<Node>)
    returns (ghost r: seq<Node>)
    requires Chained([head] + sp + [tail]) && i < |sp| && pred == ([head] + sp)[i] && curr == sp[i]
    requires i == LowerBound(Keys(sp), curr.key) && Sorted(Keys(sp))
    requires pred in held && curr in held
    modifies pred
    ensures Chained([head] + r + [tail]) && (forall x :: x in r ==> x in sp)
    ensures Keys(r) == RemoveOne(Keys(sp), curr.key) && Sorted(Keys(r))
  {
    ghost var full := [head] + sp + [tail];
    ghost var unlinked := Unlink(pred, curr, full, i + 1);
    r := sp[..i] + sp[i + 1..];
    FramedDelete(head, sp, tail, i);
    KeysDelete(sp, i);
    RemoveOneSpec(Keys(sp), curr.key);
  }
}
