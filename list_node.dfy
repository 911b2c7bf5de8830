/** The node of both sorted lists (a key and a next link; the per-node
    lock of the fine-grained list is ghost bookkeeping there), the ghost
    view of a chain of nodes as a sequence, and the two splices. */
module ListNode {
  class Node {
    const key: int
    var next: Node?

    constructor (k: int, n: Node?)
      ensures key == k && next == n
    {
      key := k;
      next := n;
    }
  }

  /** The keys along a sequence of nodes. */
  ghost function Keys(sp: seq<Node>): seq<int> {
    seq(|sp|, i requires 0 <= i < |sp| => sp[i].key)
  }

  /** sp is the chain of next links from its first node to null, and no
      node occurs twice in it. */
  ghost predicate Chained(sp: seq<Node>)
    reads sp
  {
    (forall i :: 0 <= i < |sp| - 1 ==> sp[i].next == sp[i + 1]) &&
    (sp != [] ==> sp[|sp| - 1].next == null) &&
    (forall i, j :: 0 <= i < j < |sp| ==> sp[i] != sp[j])
  }

  /** A new first node that points at the old first node extends the chain. */
  lemma ChainedCons(n: Node, sp: seq<Node>)
    requires Chained(sp) && n !in sp && n.next == (if sp == [] then null else sp[0])
    ensures Chained([n] + sp)
  {
    var r := [n] + sp;
    forall j | 0 <= j < |r| - 1
      ensures r[j].next == r[j + 1]
    {
      if j > 0 {
        assert r[j] == sp[j - 1] && r[j + 1] == sp[j];
      }
    }
    forall j, k | 0 <= j < k < |r|
      ensures r[j] != r[k]
    {
      assert r[k] == sp[k - 1];
      if j > 0 {
        assert r[j] == sp[j - 1];
      }
    }
  }

  /** Link the new node n, which already points at the node at position i
      (or null at the end), behind pred, the node at position i - 1. */
  method Link(pred: Node, n: Node, ghost sp: seq<Node>, ghost i: nat) returns (ghost r: seq<Node>)
    requires Chained(sp) && 1 <= i <= |sp| && pred == sp[i - 1]
    requires n !in sp && n.next == (if i < |sp| then sp[i] else null)
    modifies pred
    ensures r == sp[..i] + [n] + sp[i..] && Chained(r)
  {
    pred.next := n;
    r := sp[..i] + [n] + sp[i..];
    forall j | 0 <= j < |r| - 1
      ensures r[j].next == r[j + 1]
    {
      if j < i - 1 {
        assert r[j] == sp[j] && r[j + 1] == sp[j + 1] && sp[j] != pred;
      } else if j > i {
        assert r[j] == sp[j - 1] && r[j + 1] == sp[j] && sp[j - 1] != pred;
      }
    }
    if i < |sp| {
      assert r[|r| - 1] == sp[|sp| - 1] && sp[|sp| - 1] != pred;
    }
    forall j, k | 0 <= j < k < |r|
      ensures r[j] != r[k]
    {
      if j != i && k != i {
        var j', k' := if j < i then j else j - 1, if k < i then k else k - 1;
        assert r[j] == sp[j'] && r[k] == sp[k'] && j' < k';
      }
    }
  }

  /** Unlink curr, the node at position i > 0, from pred, the node before
      it: pred.next = curr.next. */
  method Unlink(pred: Node, curr: Node, ghost sp: seq<Node>, ghost i: nat) returns (ghost r: seq<Node>)
    requires Chained(sp) && 1 <= i < |sp| && pred == sp[i - 1] && curr == sp[i]
    modifies pred
    ensures r == sp[..i] + sp[i + 1..] && Chained(r)
  {
    pred.next := curr.next;
    r := sp[..i] + sp[i + 1..];
    forall j | 0 <= j < |r| - 1
      ensures r[j].next == r[j + 1]
    {
      if j < i - 1 {
        assert r[j] == sp[j] && r[j + 1] == sp[j + 1] && sp[j] != pred;
      } else if j >= i {
        assert r[j] == sp[j + 1] && r[j + 1] == sp[j + 2] && sp[j + 1] != pred;
      }
    }
    if i + 1 < |sp| {
      assert r[|r| - 1] == sp[|sp| - 1] && sp[|sp| - 1] != pred;
    }
    forall j, k | 0 <= j < k < |r|
      ensures r[j] != r[k]
    {
      var j', k' := if j < i then j else j + 1, if k < i then k else k + 1;
      assert r[j] == sp[j'] && r[k] == sp[k'] && j' < k';
    }
  }

  /** The keys after inserting node n at position i. */
  lemma KeysInsert(sp: seq<Node>, i: nat, n: Node)
    requires i <= |sp|
    ensures Keys(sp[..i] + [n] + sp[i..]) == Keys(sp)[..i] + [n.key] + Keys(sp)[i..]
  {
    assert Keys(sp[..i] + [n] + sp[i..]) == Keys(sp)[..i] + [n.key] + Keys(sp)[i..];
  }

  /** The keys after deleting the node at position i. */
  lemma KeysDelete(sp: seq<Node>, i: nat)
    requires i < |sp|
    ensures Keys(sp[..i] + sp[i + 1..]) == Keys(sp)[..i] + Keys(sp)[i + 1..]
  {
    assert Keys(sp[..i] + sp[i + 1..]) == Keys(sp)[..i] + Keys(sp)[i + 1..];
  }
}
