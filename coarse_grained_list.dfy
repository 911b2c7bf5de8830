/** The sorted singly-linked list behind one global lock, with a nullable
    `head`. `add` links a new node behind every key <= t; `remove` unlinks
    the first node whose key is t, except that it never unlinks the head
    node: there the walk stops with pred == curr == head and the splice
    `pred.next = curr.next` writes head.next back to itself. The lock
    serializes whole operations, so each operation is one sequential step. */
module CoarseGrainedList {
  import opened SortedSeq
  import opened ListNode

  /** The sequential effect of `remove` on the key sequence: RemoveOne,
      except that a t held by the first node stays. */
  function CoarseRemove(s: seq<int>, t: int): (r: seq<int>)
    ensures s != [] ==> r != [] && r[0] == s[0]
  {
    if s != [] && s[0] == t then s else RemoveOne(s, t)
  }

  class CoarseGrainedList {
    var head: Node?
    /** Ghost list of the nodes reachable from head, in order. */
    ghost var Spine: seq<Node>
    ghost var Repr: set<object>

    ghost predicate Valid()
      reads this, Repr
    {
      this in Repr && (forall x :: x in Spine ==> x in Repr) &&
      head == (if Spine == [] then null else Spine[0]) && Chained(Spine)
    }

    /** The keys from head to the end, the abstract value of the list. */
    ghost function Contents(): seq<int>
      reads this
    {
      Keys(Spine)
    }

    constructor ()
      ensures Valid() && fresh(Repr) && Contents() == []
    {
      head := null;
      Spine := [];
      Repr := {this};
    }

    /** Insert one more occurrence of t behind every key <= t. */
    method Add(t: int)
      requires Valid()
      modifies Repr
      ensures Valid() && fresh(Repr - old(Repr))
      ensures Contents() == Insert(old(Contents()), t)
      ensures old(head) == null || t < old(head).key ==> fresh(head) && head.next == old(head)
      ensures old(head) != null && t >= old(head).key ==> head == old(head)
    {
      if head == null {
        var n := new Node(t, null);
        PushFront(n, Spine);
        head := n;
        Spine := [n] + Spine;
        Repr := Repr + {n};
      } else if t < head.key {
        var curr := head;
        var n := new Node(t, curr);
        PushFront(n, Spine);
        head := n;
        Spine := [n] + Spine;
        Repr := Repr + {n};
      } else {
        var pred, curr;
        ghost var i;
        pred, curr, i := FindInsertSlot(head, t, Spine);
        var n := new Node(t, curr);
        Spine := InsertAt(pred, n, Spine, i);
        Repr := Repr + {n};
      }
    }

    /** Remove one occurrence of t, unless the head node holds t. */
    method Remove(t: int)
      requires Valid()
      modifies Repr
      ensures Valid() && Repr == old(Repr)
      ensures Contents() == CoarseRemove(old(Contents()), t)
    {
      if head == null {
        return;
      }
      var pred, curr;
      ghost var i;
      pred, curr, i := FindRemoveSlot(head, t, Spine);
      if curr == null {
        return;
      }
      if t == curr.key {
        if pred == curr {
          // pred == curr == head: the splice stores head.next into itself
          pred.next := curr.next;
        } else {
          Spine := DeleteAt(pred, curr, Spine, i);
        }
      }
    }
  }

  /** The walk of `add` from a head whose key is <= t: pred is the last
      node whose key is <= t, at position i - 1, and curr the node after
      it (null at the end); i is the upper bound of t in the keys. */
  method FindInsertSlot(head: Node, t: int, ghost sp: seq<Node>) returns (pred: Node, curr: Node?, ghost i: nat)
    requires Chained(sp) && sp != [] && head == sp[0] && head.key <= t
    ensures 1 <= i <= |sp| && pred == sp[i - 1] && curr == (if i < |sp| then sp[i] else null)
    ensures i == UpperBound(Keys(sp), t)
  {
    pred, curr := head, head;
    i := 0;
    while curr != null && t >= curr.key
      invariant 0 <= i <= |sp| && curr == (if i < |sp| then sp[i] else null)
      invariant pred == sp[if i == 0 then 0 else i - 1]
      invariant forall j :: 0 <= j < i ==> sp[j].key <= t
      decreases |sp| - i
    {
      pred := curr;
      curr := curr.next;
      i := i + 1;
    }
    UpperBoundAt(Keys(sp), t, i);
  }

  /** The walk of `remove`: curr is the first node whose key is >= t, at
      position i (null and |sp| when there is none), and pred the node
      before it, or the head itself when i is 0; i is the lower bound of
      t in the keys. */
  method FindRemoveSlot(head: Node, t: int, ghost sp: seq<Node>) returns (pred: Node, curr: Node?, ghost i: nat)
    requires Chained(sp) && sp != [] && head == sp[0]
    ensures i <= |sp| && curr == (if i < |sp| then sp[i] else null)
    ensures pred == sp[if i == 0 then 0 else i - 1]
    ensures i == LowerBound(Keys(sp), t)
  {
    pred, curr := head, head;
    i := 0;
    while curr != null && t > curr.key
      invariant 0 <= i <= |sp| && curr == (if i < |sp| then sp[i] else null)
      invariant pred == sp[if i == 0 then 0 else i - 1]
      invariant forall j :: 0 <= j < i ==> sp[j].key < t
      decreases |sp| - i
    {
      pred := curr;
      curr := curr.next;
      i := i + 1;
    }
    LowerBoundAt(Keys(sp), t, i);
  }

  /** A new first node whose key is below every key (or the only one),
      pointing at the old first node, extends the chain and inserts its key. */
  lemma PushFront(n: Node, sp: seq<Node>)
    requires Chained(sp) && n !in sp && n.next == (if sp == [] then null else sp[0])
    requires sp != [] ==> n.key < sp[0].key
    ensures Chained([n] + sp)
    ensures Keys([n] + sp) == Insert(Keys(sp), n.key)
  {
    ChainedCons(n, sp);
    UpperBoundAt(Keys(sp), n.key, 0);
    KeysInsert(sp, 0, n);
    assert sp[..0] + [n] + sp[0..] == [n] + sp;
  }

  /** The splice of `add`: the new node n, pointing at the node at the
      upper bound i of its key, is linked behind the node before it. */
  method InsertAt(pred: Node, n: Node, ghost sp: seq<Node>, ghost i: nat) returns (ghost r: seq<Node>)
    requires Chained(sp) && 1 <= i <= |sp| && pred == sp[i - 1]
    requires n !in sp && n.next == (if i < |sp| then sp[i] else null)
    requires i == UpperBound(Keys(sp), n.key)
    modifies pred
    ensures Chained(r) && r != [] && r[0] == sp[0] && (forall x :: x in r ==> x in sp || x == n)
    ensures Keys(r) == Insert(Keys(sp), n.key)
  {
    r := Link(pred, n, sp, i);
    KeysInsert(sp, i, n);
  }

  /** The splice of `remove` past the head: curr, the node at the lower
      bound i > 0 of its key, is unlinked from the node before it. */
  method DeleteAt(pred: Node, curr: Node, ghost sp: seq<Node>, ghost i: nat) returns (ghost r: seq<Node>)
    requires Chained(sp) && 1 <= i < |sp| && pred == sp[i - 1] && curr == sp[i]
    requires i == LowerBound(Keys(sp), curr.key)
    modifies pred
    ensures Chained(r) && r != [] && r[0] == sp[0] && (forall x :: x in r ==> x in sp)
    ensures Keys(r) == RemoveOne(Keys(sp), curr.key)
  {
    r := Unlink(pred, curr, sp, i);
    KeysDelete(sp, i);
  }

  /** The coarse removal keeps the keys sorted; it removes exactly one t
      when t is present but not first, and leaves the keys unchanged when
      t is absent or first. */
  lemma CoarseRemoveSpec(s: seq<int>, t: int)
    ensures Sorted(s) ==> Sorted(CoarseRemove(s, t))
    ensures t !in s || s[0] == t ==> CoarseRemove(s, t) == s
    ensures Sorted(s) && t in s && s[0] != t ==>
      |CoarseRemove(s, t)| == |s| - 1 && multiset(CoarseRemove(s, t)) == multiset(s) - multiset{t}
  {
    RemoveOneSpec(s, t);
  }

  /** A key added to the empty list cannot be removed again. */
  lemma HeadKeyStays(t: int)
    ensures CoarseRemove(Insert([], t), t) == [t]
  {
  }
}
