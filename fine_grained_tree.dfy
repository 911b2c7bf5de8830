/** The unbalanced binary search tree with one lock per node. The shape
    and the key order are those of the coarse-grained tree; the
    difference is that an operation locks the guard, then walks down
    hand over hand (it takes the child's lock before it gives up the
    parent's), and unlinks a node while it holds the locks of that node,
    of its parent and of the nodes it relinks. The ghost set `held` below
    tracks the locks of the running operation: every acquire is of a lock
    not held, every release of one held, every field written belongs to a
    locked node, and every operation ends holding nothing. Interleavings
    of several threads are not modelled: each call is one sequential step. */
module FineGrainedTree {
  import opened SortedSeq
  import opened Bst
  import opened Exceptions
  import opened Locks

  class FineGrainedTree {
    /** The key-less anchor; its value is never read. */
    const guard: TNode
    /** Ghost shape of the tree hanging from `guard.left`. */
    ghost var T: Tree
    ghost var Repr: set<object>

    ghost predicate Valid()
      reads this, Repr
    {
      this in Repr && guard in Repr && Elements(T) <= Repr &&
      guard !in Elements(T) && guard.left == Root(T) && guard.right == null &&
      Distinct(T) && Linked(T) && Ordered(T)
    }

    /** The keys in in-order order, the abstract value of the tree. */
    ghost function Contents(): seq<int>
      reads this
    {
      Keys(T)
    }

    constructor ()
      ensures Valid() && fresh(Repr) && Contents() == []
    {
      guard := new TNode(0);
      T := Nil;
      Repr := {this, guard};
    }

    /** Insert one more occurrence of t as a new leaf, writing the slot
        of the leaf's parent while holding the locks of that parent and
        of the node above it. */
    method Add(t: int) returns (ghost held: set<TNode>)
      requires Valid()
      modifies Repr
      ensures Valid() && fresh(Repr - old(Repr))
      ensures Contents() == Insert(old(Contents()), t)
      ensures old(guard.left) == null ==> fresh(guard.left)
      ensures old(guard.left) != null ==> guard.left == old(guard.left)
      ensures held == {}
    {
      held := Acquire({}, guard);
      if guard.left == null {
        var n := new TNode(t);
        guard.left := n;
        T := Node(n, t, Nil, Nil);
        Repr := Repr + {n};
        held := Release(held, guard);
      } else {
        ElementsAllocated(T);
        var n;
        ghost var T2;
        n, T2, held := AddBelow(guard, t, T, held);
        T := T2;
        Repr := Repr + {n};
      }
    }

    /** Remove one occurrence of t. On an empty tree the source throws
        when it locks the null root, after which the guard's lock is
        released; an absent key is excluded as for the coarse tree. */
    method Remove(t: int) returns (outcome: Outcome, ghost held: set<TNode>)
      requires Valid()
      requires Contents() == [] || t in Contents()
      modifies Repr
      ensures Valid() && Repr <= old(Repr)
      ensures outcome == NullPointerException <==> old(Contents()) == []
      ensures Contents() == RemoveOne(old(Contents()), t)
      ensures held == {}
    {
      held := Acquire({}, guard);
      if guard.left == null {
        held := Release(held, guard);
        outcome := NullPointerException;
        return;
      }
      T, held := RemoveFrom(guard, t, T, held);
      outcome := Normal;
    }
  }

  /** Unlink toRemove, the root of the subtree t, from the slot of parent
      named by isLeft, as in the coarse-grained tree. The caller holds the
      locks of toRemove and parent and of none of the other nodes of t;
      the locks this call takes it also gives back. */
  method RemoveNode(toRemove: TNode, parent: TNode, isLeft: bool, ghost t: Tree, ghost held: set<TNode>)
    returns (ghost s: Tree, ghost held': set<TNode>)
    requires t.Node? && t.n == toRemove && Linked(t) && Distinct(t) && parent !in Elements(t)
    requires toRemove in held && parent in held && held !! (Elements(t) - {toRemove})
    modifies Elements(t), parent
    ensures Linked(s) && Distinct(s) && Elements(s) <= Elements(t) - {toRemove}
    ensures Keys(s) == Keys(t.left) + Keys(t.right)
    ensures isLeft ==> parent.left == Root(s) && parent.right == old(parent.right)
    ensures !isLeft ==> parent.right == Root(s) && parent.left == old(parent.left)
    ensures t.left == Nil ==> s == t.right
    ensures t.right == Nil ==> s == t.left
    ensures t.left == Nil || t.right == Nil ==> unchanged(toRemove)
    ensures held' == held
    ensures t.left.Node? && t.right.Node? ==>
      s.Node? && s.n in Elements(t.left) && s.right == t.right &&
      s.key == Keys(t.left)[|Keys(t.left)| - 1]
    decreases if toRemove.right == null then 0 else 3
  {
    var replacement: TNode?;
    if toRemove.left != null && toRemove.right != null {
      var pred := toRemove.left;
      ghost var locks := Acquire(held, pred);
      if pred.right == null {
        replacement, s := PromoteLeft(toRemove, t, locks);
      } else {
        replacement, s, pred, locks := PromoteRightmost(toRemove, t, locks);
      }
      held' := Release(locks, pred);
    } else if toRemove.left != null {
      replacement := toRemove.left;
      s := t.left;
      held' := held;
    } else if toRemove.right != null {
      replacement := toRemove.right;
      s := t.right;
      held' := held;
    } else {
      replacement := null;
      s := Nil;
      held' := held;
    }
    ElementsAllocated(s);
    if isLeft {
      parent.left := replacement;
    } else {
      parent.right := replacement;
    }
  }

  /** The two-children case of `RemoveNode` when the left child, already
      locked, has no right child: it is unlinked from toRemove's left slot
      and takes over toRemove's right subtree. */
  method PromoteLeft(toRemove: TNode, ghost t: Tree, ghost held: set<TNode>) returns (maxOfLeft: TNode, ghost s: Tree)
    requires t.Node? && t.n == toRemove && Linked(t) && Distinct(t)
    requires t.left.Node? && t.right.Node? && t.left.right == Nil
    requires toRemove in held && t.left.n in held && held !! (Elements(t) - {toRemove, t.left.n})
    modifies Elements(t)
    ensures s.Node? && s.n == maxOfLeft
    ensures Linked(s) && Distinct(s) && Elements(s) <= Elements(t) - {toRemove}
    ensures Keys(s) == Keys(t.left) + Keys(t.right)
    ensures maxOfLeft == t.left.n && s == Node(maxOfLeft, t.left.key, t.left.left, t.right)
    decreases 1
  {
    ghost var l, r := t.left, t.right;
    assert Linked(l) && Linked(r) && Distinct(l) && Distinct(r);
    assert Elements(l) !! Elements(r) && toRemove !in Elements(l) + Elements(r);
    ElementsAllocated(r);
    maxOfLeft := toRemove.left;
    ghost var sl, locks := RemoveNode(maxOfLeft, toRemove, true, l, held);
    assert maxOfLeft in held;
    maxOfLeft.right := toRemove.right;
    s := Node(maxOfLeft, l.key, sl, r);
  }

  /** The two-children case of `RemoveNode` otherwise: the walk to the
      rightmost node of the left subtree trades locks hand over hand, that
      node is unlinked and takes over both children of toRemove, and its
      lock is released. pred is the lock still held in place of the left
      child's. */
  method PromoteRightmost(toRemove: TNode, ghost t: Tree, ghost held: set<TNode>)
    returns (maxOfLeft: TNode, ghost s: Tree, pred: TNode, ghost held': set<TNode>)
    requires t.Node? && t.n == toRemove && Linked(t) && Distinct(t)
    requires t.left.Node? && t.right.Node? && t.left.right.Node?
    requires toRemove in held && t.left.n in held && held !! (Elements(t) - {toRemove, t.left.n})
    modifies Elements(t)
    ensures s.Node? && s.n == maxOfLeft
    ensures Linked(s) && Distinct(s) && Elements(s) <= Elements(t) - {toRemove}
    ensures Keys(s) == Keys(t.left) + Keys(t.right)
    ensures pred in held' && held' - {pred} == held - {t.left.n}
    ensures maxOfLeft in Elements(t.left) && s.right == t.right
    ensures s.left.Node? && s.left.n == t.left.n && s.key == Keys(t.left)[|Keys(t.left)| - 1]
    decreases 2
  {
    ghost var l, r := t.left, t.right;
    assert Linked(l) && Linked(r) && Distinct(l) && Distinct(r);
    assert Elements(l) !! Elements(r) && toRemove !in Elements(l) + Elements(r);
    ElementsAllocated(r);
    ghost var key, l2;
    maxOfLeft, key, l2, pred, held' := DetachRightmost(toRemove.left, l, held);
    assert Linked(r) && maxOfLeft !in Elements(l2) + Elements(r);
    assert maxOfLeft in held';
    s := TakeOver(maxOfLeft, toRemove, key, l2, r);
    held' := Release(held', maxOfLeft);
  }

  /** m takes over the two children of from: with key k it becomes the
      root of a linked tree over l2 and r. */
  method TakeOver(m: TNode, from: TNode, ghost k: int, ghost l2: Tree, ghost r: Tree) returns (ghost s: Tree)
    requires m.value == k && from.left == Root(l2) && from.right == Root(r)
    requires Linked(l2) && Linked(r) && m !in Elements(l2) + Elements(r)
    modifies m
    ensures s == Node(m, k, l2, r) && Linked(s)
  {
    m.left := from.left;
    m.right := from.right;
    s := Node(m, k, l2, r);
  }

  /** Find the rightmost node of the subtree l (whose root has a right
      child and is locked), locking hand over hand, and unlink it from its
      parent's right slot; l2 is what remains of l. The locks of that
      node and of its parent are held on return, in place of root's. */
  method DetachRightmost(root: TNode, ghost l: Tree, ghost held: set<TNode>)
    returns (maxOfLeft: TNode, ghost key: int, ghost l2: Tree, pred: TNode, ghost held': set<TNode>)
    requires l.Node? && l.n == root && Linked(l) && Distinct(l) && l.right.Node?
    requires root in held && held !! (Elements(l) - {root})
    modifies Elements(l)
    ensures maxOfLeft in Elements(l) && maxOfLeft.value == key
    ensures l2.Node? && l2.n == root
    ensures Linked(l2) && Distinct(l2) && Elements(l2) <= Elements(l) - {maxOfLeft}
    ensures Keys(l) == Keys(l2) + [key]
    ensures pred in held' && maxOfLeft in held' && pred != maxOfLeft
    ensures held' - {pred, maxOfLeft} == held - {root}
    decreases 1
  {
    ElementsAllocated(l);
    ghost var q;
    pred, maxOfLeft, q, held' := Rightmost(root, l, held);
    ghost var m := At(l, q);
    SpliceFacts(l, q);
    BelowRoot(l, q);
    key := m.key;
    assert pred !in Elements(m) && root !in Elements(m) && Elements(m) <= Elements(l);
    forall x | x in Elements(m) - {maxOfLeft}
      ensures x !in held'
    {
      assert x in Elements(l) - {root} && x != pred;
      assert x !in held - {root};
    }
    ghost var sm, locks := RemoveNode(maxOfLeft, pred, false, m, held');
    SpliceResult(l, q, sm);
    PutRightmostKeys(l, q, sm);
    l2 := Put(l, q, sm);
  }

  /** The body of `remove` below the locked guard of a non-empty tree
      that holds t: search hand over hand, unlink the node found, then
      release the two locks still held. */
  method RemoveFrom(guard: TNode, t: int, ghost T: Tree, ghost held: set<TNode>) returns (ghost T2: Tree, ghost locks: set<TNode>)
    requires T.Node? && guard.left == Root(T) && guard.right == null && guard !in Elements(T)
    requires Linked(T) && Distinct(T) && Ordered(T) && t in Keys(T)
    requires held == {guard}
    modifies guard, Elements(T)
    ensures guard.left == Root(T2) && guard.right == null && guard !in Elements(T2)
    ensures Linked(T2) && Distinct(T2) && Elements(T2) <= Elements(T)
    ensures Ordered(T2) && Keys(T2) == RemoveOne(Keys(T), t)
    ensures locks == {}
  {
    ElementsAllocated(T);
    var pred, curr, goLeft;
    ghost var p;
    pred, curr, goLeft, p, locks := Search(guard, T, t, held);
    AtElements(T, p);
    if p != [] {
      ParentOutside(T, p);
    }
    T2 := Unlink(pred, curr, goLeft, t, T, p, locks);
    locks := Release(locks, curr);
    locks := Release(locks, pred);
  }

  /** The body of `add` below the locked guard of a non-empty tree:
      descend hand over hand, attach the new leaf n, then release the two
      locks still held. */
  method AddBelow(guard: TNode, t: int, ghost T: Tree, ghost held: set<TNode>) returns (n: TNode, ghost T2: Tree, ghost locks: set<TNode>)
    requires T.Node? && guard.left == Root(T) && guard !in Elements(T)
    requires Linked(T) && Distinct(T) && Ordered(T)
    requires held == {guard}
    modifies Elements(T)
    ensures fresh(n) && Root(T2) == Root(T) && Elements(T2) <= Elements(T) + {n}
    ensures Linked(T2) && Distinct(T2)
    ensures Ordered(T2) && Keys(T2) == Insert(Keys(T), t)
    ensures locks == {}
  {
    ElementsAllocated(T);
    var pred, curr, goLeft;
    ghost var p;
    pred, curr, goLeft, p, locks := Descend(guard, T, t, held);
    ParentOutside(T, p);
    n := new TNode(t);
    T2 := AttachLeaf(curr, goLeft, n, t, T, p, locks);
    locks := Release(locks, curr);
    locks := Release(locks, pred);
  }

  /** The attachment of the new leaf n (key t) in the empty slot at p of
      the tree T, on the side goLeft of its locked parent curr: the keys
      become the sorted insertion of t, and the nodes one more. */
  method AttachLeaf(curr: TNode, goLeft: bool, n: TNode, t: int, ghost T: Tree, ghost p: seq<bool>, ghost held: set<TNode>)
    returns (ghost T2: Tree)
    requires PathOk(T, p) && p != [] && At(T, p) == Nil
    requires curr == Parent(T, p) && p[|p| - 1] == goLeft && goLeft == (t < curr.value)
    requires forall x :: x in Before(T, p) ==> x <= t
    requires forall x :: x in After(T, p) ==> x > t
    requires Linked(T) && Distinct(T) && Ordered(T) && n !in Elements(T)
    requires n.value == t && n.left == null && n.right == null
    requires curr in held
    modifies curr
    ensures Root(T2) == Root(T) && Elements(T2) <= Elements(T) + {n}
    ensures Linked(T2) && Distinct(T2)
    ensures Ordered(T2) && Keys(T2) == Insert(Keys(T), t)
  {
    ghost var leaf := Node(n, t, Nil, Nil);
    ElementsAllocated(T);
    SpliceFacts(T, p);
    if goLeft {
      curr.left := n;
    } else {
      curr.right := n;
    }
    SpliceResult(T, p, leaf);
    PutLeafKeys(T, p, leaf);
    T2 := Put(T, p, leaf);
  }

  /** The unlinking of the node curr (key t) found at path p of the sorted
      tree T from the slot of pred named by goLeft, holding exactly the
      locks of pred and curr: the keys lose one occurrence of t, the nodes
      lose curr. */
  method Unlink(pred: TNode, curr: TNode, goLeft: bool, t: int, ghost T: Tree, ghost p: seq<bool>, ghost held: set<TNode>)
    returns (ghost T2: Tree)
    requires PathOk(T, p) && At(T, p).Node? && curr == At(T, p).n && curr.value == t
    requires Linked(T) && Distinct(T) && Ordered(T)
    requires p == [] ==> pred !in Elements(T) && goLeft
    requires p != [] ==> pred == Parent(T, p) && goLeft == p[|p| - 1]
    requires held == {pred, curr}
    modifies Elements(At(T, p)), pred
    ensures p == [] ==> pred.left == Root(T2) && pred.right == old(pred.right)
    ensures p != [] ==> Root(T2) == Root(T)
    ensures Linked(T2) && Distinct(T2) && Elements(T2) <= Elements(T) - {curr}
    ensures Ordered(T2) && Keys(T2) == RemoveOne(Keys(T), t)
  {
    ghost var u := At(T, p);
    ElementsAllocated(T);
    SpliceFacts(T, p);
    ghost var s, locks := RemoveNode(curr, pred, goLeft, u, held);
    SpliceRemoved(T, p, s);
    T2 := Put(T, p, s);
  }

  /** The locked descent of `add` below the locked guard of a non-empty
      tree: goLeft is t < key, the walk follows that side while it is not
      empty, and each step releases pred's lock, moves down one level and
      then locks the new curr. On return p is the path to the empty slot, curr its
      parent and pred the node above (or the guard); exactly their two
      locks are held. */
  method Descend(guard: TNode, ghost T: Tree, t: int, ghost held0: set<TNode>)
    returns (pred: TNode, curr: TNode, goLeft: bool, ghost p: seq<bool>, ghost held: set<TNode>)
    requires T.Node? && guard.left == Root(T) && guard !in Elements(T)
    requires Linked(T) && Distinct(T) && Ordered(T)
    requires held0 == {guard}
    ensures PathOk(T, p) && p != [] && At(T, p) == Nil
    ensures curr == Parent(T, p) && p[|p| - 1] == goLeft && goLeft == (t < curr.value)
    ensures forall x :: x in Before(T, p) ==> x <= t
    ensures forall x :: x in After(T, p) ==> x > t
    ensures held == {pred, curr} && pred != curr
  {
    pred := guard;
    curr := guard.left;
    held := Acquire(held0, curr);
    ghost var q := [];
    goLeft := t < curr.value;
    while (if goLeft then curr.left else curr.right) != null
      invariant PathOk(T, q) && At(T, q).Node? && curr == At(T, q).n
      invariant goLeft == (t < curr.value)
      invariant Linked(At(T, q)) && Distinct(At(T, q)) && Ordered(At(T, q))
      invariant forall x :: x in Before(T, q) ==> x <= t
      invariant forall x :: x in After(T, q) ==> x > t
      invariant held == {pred, curr} && pred != curr
      invariant Linked(T)
      decreases |Keys(At(T, q))|
    {
      AtExtend(T, q, goLeft);
      var next: TNode := if goLeft then curr.left else curr.right;
      HandOverHand(pred, curr, next);
      held := Release(held, pred);
      pred := curr;
      curr := next;
      held := Acquire(held, curr);
      q := q + [goLeft];
      goLeft := t < curr.value;
    }
    AtExtend(T, q, goLeft);
    p := q + [goLeft];
  }

  /** The locked search of `remove` for a present key t below the locked
      guard: curr is the first node on the search path whose key is t, p
      the path to it, and pred with goLeft names the slot that holds it;
      exactly the locks of pred and curr are held on return. */
  method Search(guard: TNode, ghost T: Tree, t: int, ghost held0: set<TNode>)
    returns (pred: TNode, curr: TNode, goLeft: bool, ghost p: seq<bool>, ghost held: set<TNode>)
    requires T.Node? && guard.left == Root(T) && guard !in Elements(T)
    requires Linked(T) && Distinct(T) && Ordered(T) && t in Keys(T)
    requires held0 == {guard}
    ensures PathOk(T, p) && At(T, p).Node? && curr == At(T, p).n && curr.value == t
    ensures p == [] ==> pred == guard && goLeft
    ensures p != [] ==> pred == Parent(T, p) && goLeft == p[|p| - 1]
    ensures held == {pred, curr} && pred != curr
  {
    pred := guard;
    curr := guard.left;
    held := Acquire(held0, curr);
    goLeft := true;
    p := [];
    while curr.value != t && (if t < curr.value then curr.left else curr.right) != null
      invariant PathOk(T, p) && At(T, p).Node? && curr == At(T, p).n
      invariant Linked(At(T, p)) && Distinct(At(T, p)) && Ordered(At(T, p))
      invariant p == [] ==> pred == guard && goLeft
      invariant p != [] ==> pred == Parent(T, p) && goLeft == p[|p| - 1]
      invariant t in Keys(At(T, p))
      invariant held == {pred, curr} && pred != curr
      invariant Linked(T)
      decreases |Keys(At(T, p))|
    {
      goLeft := t < curr.value;
      AtExtend(T, p, goLeft);
      var next: TNode := if goLeft then curr.left else curr.right;
      HandOverHand(pred, curr, next);
      held := Release(held, pred);
      pred := curr;
      curr := next;
      held := Acquire(held, curr);
      p := p + [goLeft];
    }
  }

  /** The locked walk to the rightmost node of the subtree l whose locked
      root has a right child: maxOfLeft is that node, pred the node whose
      right slot holds it, q the all-right path to it. Each step releases
      pred's lock, moves right and then locks the new maxOfLeft; on return the locks of pred and
      maxOfLeft are held in place of root's. */
  method Rightmost(root: TNode, ghost l: Tree, ghost held0: set<TNode>)
    returns (pred: TNode, maxOfLeft: TNode, ghost q: seq<bool>, ghost held: set<TNode>)
    requires l.Node? && l.n == root && Linked(l) && Distinct(l) && root.right != null
    requires root in held0 && held0 !! (Elements(l) - {root})
    ensures PathOk(l, q) && q != [] && At(l, q).Node? && maxOfLeft == At(l, q).n
    ensures maxOfLeft.right == null && pred == Parent(l, q)
    ensures !q[|q| - 1] && After(l, q) == []
    ensures pred in held && maxOfLeft in held && pred != maxOfLeft
    ensures held - {pred, maxOfLeft} == held0 - {root}
  {
    ghost var rest := held0 - {root};
    pred := root;
    maxOfLeft := root.right;
    held := Acquire(held0, maxOfLeft);
    q := [false];
    AtExtend(l, [], false);
    AtElements(l, q);
    BelowRoot(l, q);
    while maxOfLeft.right != null
      invariant PathOk(l, q) && q != [] && At(l, q).Node? && maxOfLeft == At(l, q).n
      invariant pred == Parent(l, q) && !q[|q| - 1] && After(l, q) == []
      invariant pred != maxOfLeft && pred !in rest && maxOfLeft !in rest
      invariant held == rest + {pred, maxOfLeft}
      invariant Linked(l)
      decreases |Keys(At(l, q))|
    {
      LinkedAt(l, q);
      AtExtend(l, q, false);
      AtElements(l, q);
      BelowRoot(l, q + [false]);
      ghost var next := At(l, q + [false]);
      assert next.Node? && next.n in Elements(l) - {root} && next.n != maxOfLeft;
      held := Release(held, pred);
      pred := maxOfLeft;
      maxOfLeft := maxOfLeft.right;
      held := Acquire(held, maxOfLeft);
      q := q + [false];
    }
    LinkedAt(l, q);
  }
}
