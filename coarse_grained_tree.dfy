/** The unbalanced binary search tree behind one global lock. A key-less
    `guard` node holds the root in its `left` slot. `add` attaches a leaf
    (equal keys go right); `remove` unlinks the first node on the search
    path whose key is the one removed, promoting the in-order predecessor
    when that node has two children. The lock serializes whole operations,
    so each operation is modelled as one sequential step. */
module CoarseGrainedTree {
  import opened SortedSeq
  import opened Bst
  import opened Exceptions

  class CoarseGrainedTree {
    /** The key-less anchor; its value is never read. */
    const guard: TNode
    /** Ghost shape of the tree hanging from `guard.left`. */
    ghost var T: Tree
    ghost var Repr: set<object>

    ghost predicate Valid()
      reads this, Repr
    {
      this in Repr && guard in Repr && Elements(T) <= Repr &&
      guard !in Elements(T) && guard.left == Root(T) && guard.right == null &&
      Distinct(T) && Linked(T) && Ordered(T)
    }

    /** The keys in in-order order, the abstract value of the tree. */
    ghost function Contents(): seq<int>
      reads this
    {
      Keys(T)
    }

    constructor ()
      ensures Valid() && fresh(Repr) && Contents() == []
    {
      guard := new TNode(0);
      T := Nil;
      Repr := {this, guard};
    }

    /** Insert one more occurrence of t as a new leaf. */
    method Add(t: int)
      requires Valid()
      modifies Repr
      ensures Valid() && fresh(Repr - old(Repr))
      ensures Contents() == Insert(old(Contents()), t)
      ensures old(guard.left) == null ==> fresh(guard.left)
      ensures old(guard.left) != null ==> guard.left == old(guard.left)
    {
      if guard.left == null {
        var n := new TNode(t);
        guard.left := n;
        T := Node(n, t, Nil, Nil);
        Repr := Repr + {n};
      } else {
        var n;
        ghost var T2;
        n, T2 := AddLeaf(guard, t, T);
        T := T2;
        Repr := Repr + {n};
      }
    }

    /** Remove one occurrence of t. The source requires t to be present in
        a non-empty tree: on an empty tree it throws at `guard.left.left`.
        For an absent key, `removeNode` writes the parent's slot on the
        side of the last node's null child. That may drop the parent's
        other subtree, unlink a node whose key is not t, or change
        nothing. */
    method Remove(t: int) returns (outcome: Outcome)
      requires Valid()
      requires Contents() == [] || t in Contents()
      modifies Repr
      ensures Valid() && Repr <= old(Repr)
      ensures outcome == NullPointerException <==> old(Contents()) == []
      ensures Contents() == RemoveOne(old(Contents()), t)
    {
      if guard.left == null {
        // guard.left.left dereferences null
        return NullPointerException;
      }
      T := RemoveFrom(guard, t, T);
      outcome := Normal;
    }
  }

  /** Unlink toRemove, the root of the subtree t, from the slot of parent
      named by isLeft: a leaf is replaced by null, a node with one child
      by that child, a node with two children by the rightmost node of its
      left subtree, which takes over both children. */
  method RemoveNode(toRemove: TNode, parent: TNode, isLeft: bool, ghost t: Tree) returns (ghost s: Tree)
    requires t.Node? && t.n == toRemove && Linked(t) && Distinct(t) && parent !in Elements(t)
    modifies Elements(t), parent
    ensures Linked(s) && Distinct(s) && Elements(s) <= Elements(t) - {toRemove}
    ensures Keys(s) == Keys(t.left) + Keys(t.right)
    ensures isLeft ==> parent.left == Root(s) && parent.right == old(parent.right)
    ensures !isLeft ==> parent.right == Root(s) && parent.left == old(parent.left)
    ensures t.left == Nil ==> s == t.right
    ensures t.right == Nil ==> s == t.left
    ensures t.left == Nil || t.right == Nil ==> unchanged(toRemove)
    ensures t.left.Node? && t.right.Node? ==>
      s.Node? && s.n in Elements(t.left) && s.right == t.right &&
      s.key == Keys(t.left)[|Keys(t.left)| - 1]
    decreases if toRemove.right == null then 0 else 3
  {
    var replacement: TNode?;
    if toRemove.left != null && toRemove.right != null {
      if toRemove.left.right == null {
        replacement, s := PromoteLeft(toRemove, t);
      } else {
        replacement, s := PromoteRightmost(toRemove, t);
      }
    } else if toRemove.left != null {
      replacement := toRemove.left;
      s := t.left;
    } else if toRemove.right != null {
      replacement := toRemove.right;
      s := t.right;
    } else {
      replacement := null;
      s := Nil;
    }
    ElementsAllocated(s);
    if isLeft {
      parent.left := replacement;
    } else {
      parent.right := replacement;
    }
  }

  /** The two-children case of `RemoveNode` when the left child has no
      right child: that child is unlinked from toRemove's left slot and
      takes over toRemove's right subtree. */
  method PromoteLeft(toRemove: TNode, ghost t: Tree) returns (maxOfLeft: TNode, ghost s: Tree)
    requires t.Node? && t.n == toRemove && Linked(t) && Distinct(t)
    requires t.left.Node? && t.right.Node? && t.left.right == Nil
    modifies Elements(t)
    ensures s.Node? && s.n == maxOfLeft
    ensures Linked(s) && Distinct(s) && Elements(s) <= Elements(t) - {toRemove}
    ensures Keys(s) == Keys(t.left) + Keys(t.right)
    ensures maxOfLeft == t.left.n && s == Node(maxOfLeft, t.left.key, t.left.left, t.right)
    decreases 1
  {
    ghost var l, r := t.left, t.right;
    assert Linked(l) && Linked(r) && Distinct(l) && Distinct(r);
    assert Elements(l) !! Elements(r) && toRemove !in Elements(l) + Elements(r);
    ElementsAllocated(r);
    maxOfLeft := toRemove.left;
    ghost var sl := RemoveNode(maxOfLeft, toRemove, true, l);
    maxOfLeft.right := toRemove.right;
    s := Node(maxOfLeft, l.key, sl, r);
  }

  /** The two-children case of `RemoveNode` otherwise: the rightmost node
      of the left subtree is unlinked from its parent's right slot and
      takes over both children of toRemove. */
  method PromoteRightmost(toRemove: TNode, ghost t: Tree) returns (maxOfLeft: TNode, ghost s: Tree)
    requires t.Node? && t.n == toRemove && Linked(t) && Distinct(t)
    requires t.left.Node? && t.right.Node? && t.left.right.Node?
    modifies Elements(t)
    ensures s.Node? && s.n == maxOfLeft
    ensures Linked(s) && Distinct(s) && Elements(s) <= Elements(t) - {toRemove}
    ensures Keys(s) == Keys(t.left) + Keys(t.right)
    ensures maxOfLeft in Elements(t.left) && s.right == t.right
    ensures s.left.Node? && s.left.n == t.left.n && s.key == Keys(t.left)[|Keys(t.left)| - 1]
    decreases 2
  {
    ghost var l, r := t.left, t.right;
    assert Linked(l) && Linked(r) && Distinct(l) && Distinct(r);
    assert Elements(l) !! Elements(r) && toRemove !in Elements(l) + Elements(r);
    ElementsAllocated(r);
    ghost var key, l2;
    maxOfLeft, key, l2 := DetachRightmost(toRemove.left, l);
    maxOfLeft.left := toRemove.left;
    maxOfLeft.right := toRemove.right;
    s := Node(maxOfLeft, key, l2, r);
  }

  /** Find the rightmost node of the subtree l (whose root has a right
      child) and unlink it from its parent's right slot, putting its own
      left subtree there; l2 is what remains of l, with the same root. */
  method DetachRightmost(root: TNode, ghost l: Tree) returns (maxOfLeft: TNode, ghost key: int, ghost l2: Tree)
    requires l.Node? && l.n == root && Linked(l) && Distinct(l) && l.right.Node?
    modifies Elements(l)
    ensures maxOfLeft in Elements(l) && maxOfLeft.value == key
    ensures l2.Node? && l2.n == root
    ensures Linked(l2) && Distinct(l2) && Elements(l2) <= Elements(l) - {maxOfLeft}
    ensures Keys(l) == Keys(l2) + [key]
    decreases 1
  {
    ElementsAllocated(l);
    var pred;
    ghost var q;
    pred, maxOfLeft, q := Rightmost(root, l);
    ghost var m := At(l, q);
    SpliceFacts(l, q);
    key := m.key;
    ghost var sm := RemoveNode(maxOfLeft, pred, false, m);
    SpliceResult(l, q, sm);
    PutRightmostKeys(l, q, sm);
    l2 := Put(l, q, sm);
  }

  /** The body of `remove` below the guard of a non-empty tree that holds
      t: search, then unlink the node found. */
  method RemoveFrom(guard: TNode, t: int, ghost T: Tree) returns (ghost T2: Tree)
    requires T.Node? && guard.left == Root(T) && guard.right == null && guard !in Elements(T)
    requires Linked(T) && Distinct(T) && Ordered(T) && t in Keys(T)
    modifies guard, Elements(T)
    ensures guard.left == Root(T2) && guard.right == null && guard !in Elements(T2)
    ensures Linked(T2) && Distinct(T2) && Elements(T2) <= Elements(T)
    ensures Ordered(T2) && Keys(T2) == RemoveOne(Keys(T), t)
  {
    ElementsAllocated(T);
    var pred, curr, goLeft;
    ghost var p;
    pred, curr, goLeft, p := Search(guard, T, t);
    AtElements(T, p);
    if p != [] {
      ParentOutside(T, p);
    }
    T2 := Unlink(pred, curr, goLeft, t, T, p);
  }

  /** The non-empty case of `add`: the descent to an empty slot and the
      attachment there of a new leaf n with key t. */
  method AddLeaf(guard: TNode, t: int, ghost T: Tree) returns (n: TNode, ghost T2: Tree)
    requires T.Node? && guard.left == Root(T) && guard !in Elements(T)
    requires Linked(T) && Distinct(T) && Ordered(T)
    modifies Elements(T)
    ensures fresh(n) && Root(T2) == Root(T) && Elements(T2) <= Elements(T) + {n}
    ensures Linked(T2) && Distinct(T2)
    ensures Ordered(T2) && Keys(T2) == Insert(Keys(T), t)
  {
    ElementsAllocated(T);
    var curr;
    ghost var p;
    curr, p := FindLeafSlot(guard, T, t);
    ParentOutside(T, p);
    n := new TNode(t);
    T2 := AttachLeaf(curr, n, t, T, p);
  }

  /** The attachment of the new leaf n (key t) in the empty slot at p of
      the tree T, whose parent is curr: the keys become the sorted
      insertion of t, and the nodes one more. */
  method AttachLeaf(curr: TNode, n: TNode, t: int, ghost T: Tree, ghost p: seq<bool>) returns (ghost T2: Tree)
    requires PathOk(T, p) && p != [] && At(T, p) == Nil
    requires curr == Parent(T, p) && p[|p| - 1] == (t < curr.value)
    requires forall x :: x in Before(T, p) ==> x <= t
    requires forall x :: x in After(T, p) ==> x > t
    requires Linked(T) && Distinct(T) && Ordered(T) && n !in Elements(T)
    requires n.value == t && n.left == null && n.right == null
    modifies curr
    ensures Root(T2) == Root(T) && Elements(T2) <= Elements(T) + {n}
    ensures Linked(T2) && Distinct(T2)
    ensures Ordered(T2) && Keys(T2) == Insert(Keys(T), t)
  {
    ghost var leaf := Node(n, t, Nil, Nil);
    ElementsAllocated(T);
    SpliceFacts(T, p);
    if t < curr.value {
      curr.left := n;
    } else {
      curr.right := n;
    }
    SpliceResult(T, p, leaf);
    PutLeafKeys(T, p, leaf);
    T2 := Put(T, p, leaf);
  }

  /** The unlinking of the node curr (key t) found at path p of the sorted
      tree T from the slot of pred named by goLeft: the keys lose one
      occurrence of t, the nodes lose curr. */
  method Unlink(pred: TNode, curr: TNode, goLeft: bool, t: int, ghost T: Tree, ghost p: seq<bool>) returns (ghost T2: Tree)
    requires PathOk(T, p) && At(T, p).Node? && curr == At(T, p).n && curr.value == t
    requires Linked(T) && Distinct(T) && Ordered(T)
    requires p == [] ==> pred !in Elements(T) && goLeft
    requires p != [] ==> pred == Parent(T, p) && goLeft == p[|p| - 1]
    modifies Elements(At(T, p)), pred
    ensures p == [] ==> pred.left == Root(T2) && pred.right == old(pred.right)
    ensures p != [] ==> Root(T2) == Root(T)
    ensures Linked(T2) && Distinct(T2) && Elements(T2) <= Elements(T) - {curr}
    ensures Ordered(T2) && Keys(T2) == RemoveOne(Keys(T), t)
  {
    ghost var u := At(T, p);
    ElementsAllocated(T);
    SpliceFacts(T, p);
    ghost var s := RemoveNode(curr, pred, goLeft, u);
    SpliceRemoved(T, p, s);
    T2 := Put(T, p, s);
  }

  /** The descent of `add` from the guard: follows left for keys greater
      than t and right otherwise until the child slot is empty. p is the
      path to that empty slot and curr its parent; every key in order before
      the slot is <= t and every key after it is > t. */
  method FindLeafSlot(guard: TNode, ghost T: Tree, t: int) returns (curr: TNode, ghost p: seq<bool>)
    requires T.Node? && guard.left == Root(T) && Linked(T) && Ordered(T)
    ensures PathOk(T, p) && p != [] && At(T, p) == Nil
    ensures curr == Parent(T, p) && p[|p| - 1] == (t < curr.value)
    ensures forall x :: x in Before(T, p) ==> x <= t
    ensures forall x :: x in After(T, p) ==> x > t
  {
    curr := guard;
    var next := guard.left;
    p := [];
    while next != null
      invariant PathOk(T, p) && next == Root(At(T, p))
      invariant p == [] ==> curr == guard
      invariant p != [] ==> curr == Parent(T, p) && p[|p| - 1] == (t < curr.value)
      invariant forall x :: x in Before(T, p) ==> x <= t
      invariant forall x :: x in After(T, p) ==> x > t
      invariant Linked(T)
      decreases |Keys(At(T, p))|
    {
      LinkedAt(T, p);
      OrderedAt(T, p);
      AtExtend(T, p, t < next.value);
      curr := next;
      next := if t < curr.value then curr.left else curr.right;
      p := p + [t < curr.value];
    }
  }

  /** The search of `remove` for a present key t: curr is the first node on
      the search path whose key is t, p the path to it, and pred with goLeft
      names the slot that holds it (the guard's left slot for the root).
      The source assigns goLeft inside the loop condition; it differs from
      the direction into curr only when the search falls off the tree,
      which a present key rules out. */
  method Search(guard: TNode, ghost T: Tree, t: int) returns (pred: TNode, curr: TNode, goLeft: bool, ghost p: seq<bool>)
    requires T.Node? && guard.left == Root(T) && Linked(T) && Ordered(T) && t in Keys(T)
    ensures PathOk(T, p) && At(T, p).Node? && curr == At(T, p).n && curr.value == t
    ensures p == [] ==> pred == guard && goLeft
    ensures p != [] ==> pred == Parent(T, p) && goLeft == p[|p| - 1]
  {
    pred := guard;
    curr := guard.left;
    goLeft := true;
    p := [];
    while curr.value != t && (if t < curr.value then curr.left else curr.right) != null
      invariant PathOk(T, p) && At(T, p).Node? && curr == At(T, p).n
      invariant Linked(At(T, p)) && Ordered(At(T, p))
      invariant p == [] ==> pred == guard && goLeft
      invariant p != [] ==> pred == Parent(T, p) && goLeft == p[|p| - 1]
      invariant t in Keys(At(T, p))
      invariant Linked(T)
      decreases |Keys(At(T, p))|
    {
      goLeft := t < curr.value;
      AtExtend(T, p, goLeft);
      pred := curr;
      curr := if goLeft then curr.left else curr.right;
      p := p + [goLeft];
      LinkedAt(T, p);
      OrderedAt(T, p);
    }
  }

  /** The walk to the rightmost node of the subtree l whose root has a
      right child: maxOfLeft is that node (it has no right child), pred
      the node whose right slot holds it, and q the all-right path to it. */
  method Rightmost(root: TNode, ghost l: Tree) returns (pred: TNode, maxOfLeft: TNode, ghost q: seq<bool>)
    requires l.Node? && l.n == root && Linked(l) && root.right != null
    ensures PathOk(l, q) && q != [] && At(l, q).Node? && maxOfLeft == At(l, q).n
    ensures maxOfLeft.right == null && pred == Parent(l, q)
    ensures !q[|q| - 1] && After(l, q) == []
  {
    pred := root;
    maxOfLeft := root.right;
    q := [false];
    AtExtend(l, [], false);
    while maxOfLeft.right != null
      invariant PathOk(l, q) && q != [] && At(l, q).Node? && maxOfLeft == At(l, q).n
      invariant pred == Parent(l, q) && !q[|q| - 1] && After(l, q) == []
      invariant Linked(l)
      decreases |Keys(At(l, q))|
    {
      LinkedAt(l, q);
      AtExtend(l, q, false);
      pred := maxOfLeft;
      maxOfLeft := maxOfLeft.right;
      q := q + [false];
    }
    LinkedAt(l, q);
  }
}
