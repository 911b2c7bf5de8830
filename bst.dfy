/** The node and the proof machinery shared by the coarse- and fine-grained
    binary search trees. A heap tree is described by a ghost `Tree` value
    that records, for every node, the node object and its key; `Linked`
    ties that value to the heap's `left`/`right` fields. A splice at one
    child slot is described by a path of directions from the root
    (`true` = left) and the function `Put` that replaces the subtree there. */
module Bst {
  import opened SortedSeq

  /** A tree node: `value`, `left` and `right` as in both tree classes. */
  class TNode {
    const value: int
    var left: TNode?
    var right: TNode?

    constructor (v: int)
      ensures value == v && left == null && right == null
    {
      value := v;
      left := null;
      right := null;
    }
  }

  /** Ghost shape of a heap tree. */
  datatype Tree = Nil | Node(n: TNode, key: int, left: Tree, right: Tree)

  function Root(t: Tree): TNode? {
    if t.Nil? then null else t.n
  }

  function Child(t: Tree, goLeft: bool): Tree
    requires t.Node?
  {
    if goLeft then t.left else t.right
  }

  ghost function Elements(t: Tree): set<TNode> {
    match t
    case Nil => {}
    case Node(n, _, l, r) => {n} + Elements(l) + Elements(r)
  }

  /** Every node object of a ghost shape is allocated, so a heap update
      that leaves all nodes outside a modifies set alone leaves them alone. */
  lemma {:induction false} ElementsAllocated(t: Tree)
    ensures forall o :: o in Elements(t) ==> allocated(o)
  {
    match t
    case Nil =>
    case Node(_, _, l, r) =>
      ElementsAllocated(l);
      ElementsAllocated(r);
  }

  /** The in-order key sequence of a tree. */
  function Keys(t: Tree): seq<int> {
    match t
    case Nil => []
    case Node(_, k, l, r) => Keys(l) + [k] + Keys(r)
  }

  /** No node object occurs twice: the shape is a tree, not a DAG. */
  ghost predicate Distinct(t: Tree) {
    match t
    case Nil => true
    case Node(n, _, l, r) =>
      n !in Elements(l) && n !in Elements(r) && Elements(l) !! Elements(r) &&
      Distinct(l) && Distinct(r)
  }

  /** The search-tree order at every node: keys in the left subtree are
      <= the node's key, keys in the right subtree are >= it. */
  ghost predicate Ordered(t: Tree) {
    match t
    case Nil => true
    case Node(_, k, l, r) =>
      (forall x :: x in Keys(l) ==> x <= k) && (forall x :: x in Keys(r) ==> k <= x) &&
      Ordered(l) && Ordered(r)
  }

  /** The heap fields agree with the ghost shape. */
  ghost predicate Linked(t: Tree)
    reads Elements(t)
  {
    match t
    case Nil => true
    case Node(n, k, l, r) =>
      n.value == k && n.left == Root(l) && n.right == Root(r) && Linked(l) && Linked(r)
  }

  /** Every step of p but the last one lands on a node. */
  ghost predicate PathOk(t: Tree, p: seq<bool>)
    decreases |p|
  {
    p == [] || (t.Node? && PathOk(Child(t, p[0]), p[1..]))
  }

  /** The subtree at the end of path p. */
  ghost function At(t: Tree, p: seq<bool>): Tree
    requires PathOk(t, p)
    decreases |p|
  {
    if p == [] then t else At(Child(t, p[0]), p[1..])
  }

  /** t with the subtree at the end of path p replaced by s. */
  ghost function Put(t: Tree, p: seq<bool>, s: Tree): Tree
    requires PathOk(t, p)
    decreases |p|
  {
    if p == [] then s
    else if p[0] then Node(t.n, t.key, Put(t.left, p[1..], s), t.right)
    else Node(t.n, t.key, t.left, Put(t.right, p[1..], s))
  }

  /** The keys that come before the subtree at p in in-order. */
  ghost function Before(t: Tree, p: seq<bool>): seq<int>
    requires PathOk(t, p)
    decreases |p|
  {
    if p == [] then []
    else if p[0] then Before(t.left, p[1..])
    else Keys(t.left) + [t.key] + Before(t.right, p[1..])
  }

  /** The keys that come after the subtree at p in in-order. */
  ghost function After(t: Tree, p: seq<bool>): seq<int>
    requires PathOk(t, p)
    decreases |p|
  {
    if p == [] then []
    else if p[0] then After(t.left, p[1..]) + [t.key] + Keys(t.right)
    else After(t.right, p[1..])
  }

  /** The subtree whose root owns the child slot at the end of p. */
  ghost function ParentTree(t: Tree, p: seq<bool>): (u: Tree)
    requires PathOk(t, p) && p != []
    ensures u.Node?
    decreases |p|
  {
    if |p| == 1 then t else ParentTree(Child(t, p[0]), p[1..])
  }

  /** The node whose child slot the path p ends in (p non-empty). */
  ghost function Parent(t: Tree, p: seq<bool>): TNode
    requires PathOk(t, p) && p != []
  {
    ParentTree(t, p).n
  }

  /** The nodes of t that are neither in the subtree at p nor its parent:
      a splice at p leaves them untouched. */
  ghost function Outside(t: Tree, p: seq<bool>): set<TNode>
    requires PathOk(t, p)
    decreases |p|
  {
    if p == [] then {}
    else
      (if |p| == 1 then {} else {t.n}) +
      Elements(Child(t, !p[0])) + Outside(Child(t, p[0]), p[1..])
  }

  /** In the current heap, the parent of the slot at p points to s on that
      side and keeps its key and its other child. */
  ghost predicate SlotSet(t: Tree, p: seq<bool>, s: Tree)
    requires PathOk(t, p) && p != []
    reads Parent(t, p)
  {
    var u := ParentTree(t, p);
    u.n.value == u.key &&
    if p[|p| - 1] then u.n.left == Root(s) && u.n.right == Root(u.right)
    else u.n.right == Root(s) && u.n.left == Root(u.left)
  }

  /** One more step down from a node keeps the path well-formed, and moves
      the boundaries of the in-order window by that node's other side. */
  lemma {:induction false} AtExtend(t: Tree, p: seq<bool>, d: bool)
    requires PathOk(t, p) && At(t, p).Node?
    ensures PathOk(t, p + [d]) && At(t, p + [d]) == Child(At(t, p), d)
    ensures Before(t, p + [d]) ==
      Before(t, p) + (if d then [] else Keys(At(t, p).left) + [At(t, p).key])
    ensures After(t, p + [d]) ==
      (if d then [At(t, p).key] + Keys(At(t, p).right) else []) + After(t, p)
    ensures ParentTree(t, p + [d]) == At(t, p)
    decreases |p|
  {
    if p != [] {
      assert (p + [d])[1..] == p[1..] + [d];
      AtExtend(Child(t, p[0]), p[1..], d);
    }
  }

  /** The subtree at p occupies a contiguous window of the in-order keys. */
  lemma {:induction false} KeysSplit(t: Tree, p: seq<bool>)
    requires PathOk(t, p)
    ensures Keys(t) == Before(t, p) + Keys(At(t, p)) + After(t, p)
    decreases |p|
  {
    if p != [] {
      KeysSplit(Child(t, p[0]), p[1..]);
    }
  }

  /** Replacing the subtree at p replaces exactly that window. */
  lemma {:induction false} PutKeys(t: Tree, p: seq<bool>, s: Tree)
    requires PathOk(t, p)
    ensures Keys(Put(t, p, s)) == Before(t, p) + Keys(s) + After(t, p)
    decreases |p|
  {
    if p != [] {
      PutKeys(Child(t, p[0]), p[1..], s);
    }
  }

  /** The node set after a splice, and the shape stays a tree when the new
      subtree shares no node with the rest. */
  lemma {:induction false} PutDistinct(t: Tree, p: seq<bool>, s: Tree)
    requires PathOk(t, p) && Distinct(t) && Distinct(s)
    requires Elements(s) !! (Elements(t) - Elements(At(t, p)))
    ensures Elements(At(t, p)) <= Elements(t)
    ensures Elements(Put(t, p, s)) == (Elements(t) - Elements(At(t, p))) + Elements(s)
    ensures Distinct(Put(t, p, s))
    decreases |p|
  {
    if p != [] {
      PutDistinct(Child(t, p[0]), p[1..], s);
    }
  }

  /** The subtree at p is made of nodes of t, and is itself a tree. */
  lemma {:induction false} AtElements(t: Tree, p: seq<bool>)
    requires PathOk(t, p)
    ensures Elements(At(t, p)) <= Elements(t)
    ensures Distinct(t) ==> Distinct(At(t, p))
    decreases |p|
  {
    if p != [] {
      AtElements(Child(t, p[0]), p[1..]);
    }
  }

  /** The parent of the slot at p lies outside the subtree at p. */
  lemma {:induction false} ParentOutside(t: Tree, p: seq<bool>)
    requires PathOk(t, p) && p != [] && Distinct(t)
    ensures Parent(t, p) in Elements(t) && Parent(t, p) !in Elements(At(t, p))
    ensures Outside(t, p) == Elements(t) - Elements(At(t, p)) - {Parent(t, p)}
    decreases |p|
  {
    AtElements(Child(t, p[0]), p[1..]);
    if |p| > 1 {
      ParentOutside(Child(t, p[0]), p[1..]);
    }
  }

  /** A subtree strictly below the root of t does not hold that root. */
  lemma {:induction false} BelowRoot(t: Tree, p: seq<bool>)
    requires PathOk(t, p) && p != [] && Distinct(t)
    ensures t.Node? && t.n !in Elements(At(t, p)) && Elements(At(t, p)) <= Elements(t)
  {
    AtElements(Child(t, p[0]), p[1..]);
  }

  /** The links of the subtree at p are part of the links of t. */
  lemma {:induction false} LinkedAt(t: Tree, p: seq<bool>)
    requires PathOk(t, p) && Linked(t)
    ensures Linked(At(t, p))
    decreases |p|
  {
    if p != [] {
      LinkedAt(Child(t, p[0]), p[1..]);
    }
  }

  /** The links of the parent subtree of a slot are part of the links of t. */
  lemma {:induction false} LinkedParent(t: Tree, p: seq<bool>)
    requires PathOk(t, p) && p != [] && Linked(t)
    ensures Linked(ParentTree(t, p))
    decreases |p|
  {
    if |p| > 1 {
      LinkedParent(Child(t, p[0]), p[1..]);
    }
  }

  /** The links of t outside the slot at p and its parent (the sibling
      subtrees and the strict ancestors of the parent) agree with the heap. */
  ghost predicate LinkedOutside(t: Tree, p: seq<bool>)
    requires PathOk(t, p)
    reads Outside(t, p)
    decreases |p|
  {
    p == [] ||
    (Linked(Child(t, !p[0])) &&
     (|p| > 1 ==>
        t.n.value == t.key && t.n.left == Root(t.left) && t.n.right == Root(t.right) &&
        LinkedOutside(Child(t, p[0]), p[1..])))
  }

  /** A linked tree is linked outside any slot. */
  lemma {:induction false} LinkedOutsideOf(t: Tree, p: seq<bool>)
    requires PathOk(t, p) && Linked(t)
    ensures LinkedOutside(t, p)
    decreases |p|
  {
    if |p| > 1 {
      LinkedOutsideOf(Child(t, p[0]), p[1..]);
    }
  }

  /** A splice that set the parent's slot to a linked s, in a tree still
      linked outside that slot, leaves the whole spliced tree linked. */
  lemma {:induction false} PutLinked(t: Tree, p: seq<bool>, s: Tree)
    requires PathOk(t, p) && LinkedOutside(t, p) && Linked(s)
    requires p != [] ==> SlotSet(t, p, s)
    ensures Linked(Put(t, p, s))
    decreases |p|
  {
    if |p| > 1 {
      PutLinked(Child(t, p[0]), p[1..], s);
    }
  }

  /** Everything a splice at p needs to know about a linked tree: the
      subtree there is linked and made of nodes of t, the tree is linked
      outside the slot, and the slot's parent is linked and outside the
      subtree. */
  lemma {:induction false} SpliceFacts(t: Tree, p: seq<bool>)
    requires PathOk(t, p) && Linked(t) && Distinct(t)
    ensures Linked(At(t, p)) && Distinct(At(t, p)) && Elements(At(t, p)) <= Elements(t)
    ensures LinkedOutside(t, p)
    ensures p != [] ==>
      (Linked(ParentTree(t, p)) &&
       Parent(t, p) in Elements(t) && Parent(t, p) !in Elements(At(t, p)) &&
       Outside(t, p) == Elements(t) - Elements(At(t, p)) - {Parent(t, p)})
  {
    LinkedAt(t, p);
    AtElements(t, p);
    LinkedOutsideOf(t, p);
    if p != [] {
      LinkedParent(t, p);
      ParentOutside(t, p);
    }
  }

  /** After the parent's slot at p is set to a linked tree s that shares no
      node with the rest of t, the spliced tree is linked and a tree. */
  lemma {:induction false} SpliceResult(t: Tree, p: seq<bool>, s: Tree)
    requires PathOk(t, p) && LinkedOutside(t, p) && Linked(s)
    requires p != [] ==> SlotSet(t, p, s)
    requires Distinct(t) && Distinct(s) && Elements(s) !! (Elements(t) - Elements(At(t, p)))
    ensures Linked(Put(t, p, s)) && Distinct(Put(t, p, s))
    ensures Elements(Put(t, p, s)) <= (Elements(t) - Elements(At(t, p))) + Elements(s)
  {
    PutLinked(t, p, s);
    PutDistinct(t, p, s);
  }

  /** The search-tree order holds exactly when the in-order keys are in
      non-decreasing order. */
  lemma {:induction false} OrderedIffSorted(t: Tree)
    ensures Ordered(t) <==> Sorted(Keys(t))
  {
    match t
    case Nil =>
    case Node(_, k, l, r) =>
      OrderedIffSorted(l);
      OrderedIffSorted(r);
      SortedAround(Keys(l), k, Keys(r));
  }

  lemma {:induction false} SortedOfOrdered(t: Tree)
    requires Ordered(t)
    ensures Sorted(Keys(t))
  {
    OrderedIffSorted(t);
  }

  lemma {:induction false} OrderedOfSorted(t: Tree, ks: seq<int>)
    requires Keys(t) == ks && Sorted(ks)
    ensures Ordered(t)
  {
    OrderedIffSorted(t);
  }

  /** Every subtree of an ordered tree is ordered. */
  lemma {:induction false} OrderedAt(t: Tree, p: seq<bool>)
    requires PathOk(t, p) && Ordered(t)
    ensures Ordered(At(t, p))
    decreases |p|
  {
    if p != [] {
      OrderedAt(Child(t, p[0]), p[1..]);
    }
  }

  /** A new leaf with key t in an empty slot whose in-order window lies
      between the keys <= t and the keys > t: the keys become the sorted
      insertion of t, and the tree stays ordered. */
  lemma {:induction false} PutLeafKeys(t: Tree, p: seq<bool>, leaf: Tree)
    requires PathOk(t, p) && At(t, p) == Nil && Ordered(t)
    requires leaf.Node? && leaf.left == Nil && leaf.right == Nil
    requires forall x :: x in Before(t, p) ==> x <= leaf.key
    requires forall x :: x in After(t, p) ==> x > leaf.key
    ensures Keys(Put(t, p, leaf)) == Insert(Keys(t), leaf.key)
    ensures Ordered(Put(t, p, leaf))
  {
    var r := Put(t, p, leaf);
    var b, a := Before(t, p), After(t, p);
    PutLeafSplit(t, p, leaf);
    InsertBetween(b, a, leaf.key);
    SortedOfOrdered(t);
    assert Sorted(b + a);
    InsertSpec(b + a, leaf.key);
    assert Sorted(b + [leaf.key] + a);
    OrderedOfSorted(r, b + [leaf.key] + a);
  }

  /** An empty slot splits the in-order keys into the keys before and after
      it; a leaf put there sits between the two. */
  lemma {:induction false} PutLeafSplit(t: Tree, p: seq<bool>, leaf: Tree)
    requires PathOk(t, p) && At(t, p) == Nil
    requires leaf.Node? && leaf.left == Nil && leaf.right == Nil
    ensures Keys(t) == Before(t, p) + After(t, p)
    ensures Keys(Put(t, p, leaf)) == Before(t, p) + [leaf.key] + After(t, p)
  {
    PutKeys(t, p, leaf);
    KeysSplit(t, p);
    assert Keys(leaf) == [leaf.key];
    assert Keys(At(t, p)) == [];
    assert Before(t, p) + [] + After(t, p) == Before(t, p) + After(t, p);
  }

  lemma {:induction false} Regroup(b: seq<int>, l: seq<int>, k: int, r: seq<int>, a: seq<int>)
    ensures b + (l + [k] + r) + a == (b + l) + [k] + (r + a)
    ensures b + (l + r) + a == (b + l) + (r + a)
  {
  }

  /** The node at p has no right child and nothing follows it in order:
      replacing it by its left subtree drops exactly the last key. */
  lemma {:induction false} PutRightmostKeys(t: Tree, p: seq<bool>, s: Tree)
    requires PathOk(t, p) && At(t, p).Node? && At(t, p).right == Nil && After(t, p) == []
    requires Keys(s) == Keys(At(t, p).left)
    ensures Keys(t) == Keys(Put(t, p, s)) + [At(t, p).key]
  {
    var u := At(t, p);
    PutKeys(t, p, s);
    KeysSplit(t, p);
    assert Keys(u) == Keys(u.left) + [u.key];
  }

  /** The in-order keys around a node at p, before and after it is
      replaced by a tree s holding the keys of its two children. */
  lemma {:induction false} PutKeysAround(t: Tree, p: seq<bool>, s: Tree)
    requires PathOk(t, p) && At(t, p).Node?
    requires Keys(s) == Keys(At(t, p).left) + Keys(At(t, p).right)
    ensures var u := At(t, p);
      Keys(t) == (Before(t, p) + Keys(u.left)) + [u.key] + (Keys(u.right) + After(t, p)) &&
      Keys(Put(t, p, s)) == (Before(t, p) + Keys(u.left)) + (Keys(u.right) + After(t, p))
  {
    var u := At(t, p);
    PutKeys(t, p, s);
    KeysSplit(t, p);
    assert Keys(u) == Keys(u.left) + [u.key] + Keys(u.right);
    Regroup(Before(t, p), Keys(u.left), u.key, Keys(u.right), After(t, p));
  }

  /** Replacing the subtree at p by a tree s holding the keys of its two
      children removes the first occurrence of its root key, and keeps an
      ordered tree ordered. */
  lemma {:induction false} PutRemovedKeys(t: Tree, p: seq<bool>, s: Tree)
    requires PathOk(t, p) && At(t, p).Node? && Ordered(t)
    requires Keys(s) == Keys(At(t, p).left) + Keys(At(t, p).right)
    ensures Keys(Put(t, p, s)) == RemoveOne(Keys(t), At(t, p).key)
    ensures Ordered(Put(t, p, s))
  {
    var u := At(t, p);
    var r := Put(t, p, s);
    var lo, hi := Before(t, p) + Keys(u.left), Keys(u.right) + After(t, p);
    PutKeysAround(t, p, s);
    SortedOfOrdered(t);
    RemoveBetween(lo, u.key, hi);
    OrderedOfSorted(r, lo + hi);
  }

  /** Splicing s, the subtree left by unlinking the root of the subtree at
      path p, back into the slot at p: the tree stays linked, distinct and
      ordered, loses that root's key once and gains no node. */
  lemma SpliceRemoved(t: Tree, p: seq<bool>, s: Tree)
    requires PathOk(t, p) && At(t, p).Node? && Distinct(t) && Ordered(t)
    requires LinkedOutside(t, p) && Linked(s) && Distinct(s)
    requires p != [] ==> SlotSet(t, p, s)
    requires Elements(s) <= Elements(At(t, p)) - {At(t, p).n}
    requires Keys(s) == Keys(At(t, p).left) + Keys(At(t, p).right)
    ensures Linked(Put(t, p, s)) && Distinct(Put(t, p, s))
    ensures Elements(Put(t, p, s)) <= Elements(t) - {At(t, p).n}
    ensures Ordered(Put(t, p, s)) && Keys(Put(t, p, s)) == RemoveOne(Keys(t), At(t, p).key)
    ensures p != [] ==> Root(Put(t, p, s)) == Root(t)
    ensures p == [] ==> Put(t, p, s) == s
  {
    var u := At(t, p);
    SpliceResult(t, p, s);
    PutRemovedKeys(t, p, s);
    AtElements(t, p);
    assert u.n in Elements(u);
    assert Elements(s) + (Elements(t) - Elements(u)) <= Elements(t) - {u.n};
  }
}
