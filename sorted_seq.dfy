/** The abstract view shared by all four collections: the keys in traversal
    (list) or in-order (tree) order, as a sequence of ints that is kept in
    non-decreasing order. `Insert` and `RemoveOne` are the sequential meaning
    of `add` and `remove` on that view. */
module SortedSeq {

  /** Keys in non-decreasing order (duplicates allowed). */
  predicate Sorted(s: seq<int>) {
    forall i, j :: 0 <= i < j < |s| ==> s[i] <= s[j]
  }

  /** The first index whose key is greater than t (|s| when there is none). */
  function UpperBound(s: seq<int>, t: int): (k: nat)
    ensures k <= |s|
    ensures forall i :: 0 <= i < k ==> s[i] <= t
    ensures k < |s| ==> s[k] > t
  {
    if s == [] || s[0] > t then 0 else 1 + UpperBound(s[1..], t)
  }

  /** The first index whose key is at least t (|s| when there is none). */
  function LowerBound(s: seq<int>, t: int): (k: nat)
    ensures k <= |s|
    ensures forall i :: 0 <= i < k ==> s[i] < t
    ensures k < |s| ==> s[k] >= t
  {
    if s == [] || s[0] >= t then 0 else 1 + LowerBound(s[1..], t)
  }

  /** An index before which every key is <= t and at which the key is
      > t (or the end) is the upper bound. */
  lemma UpperBoundAt(s: seq<int>, t: int, k: nat)
    requires k <= |s| && (forall i :: 0 <= i < k ==> s[i] <= t)
    requires k < |s| ==> s[k] > t
    ensures UpperBound(s, t) == k
  {
  }

  /** An index before which every key is < t and at which the key is
      >= t (or the end) is the lower bound. */
  lemma LowerBoundAt(s: seq<int>, t: int, k: nat)
    requires k <= |s| && (forall i :: 0 <= i < k ==> s[i] < t)
    requires k < |s| ==> s[k] >= t
    ensures LowerBound(s, t) == k
  {
  }

  /** The lower bound is the end exactly when every key is < t. */
  lemma LowerBoundEnd(s: seq<int>, t: int)
    ensures LowerBound(s, t) == |s| <==> forall x :: x in s ==> x < t
  {
    var k := LowerBound(s, t);
    if k < |s| {
      assert s[k] in s;
    }
  }

  /** Sorted insertion of one more occurrence of t, after every key <= t. */
  function Insert(s: seq<int>, t: int): (r: seq<int>)
    ensures |r| == |s| + 1
  {
    var k := UpperBound(s, t);
    s[..k] + [t] + s[k..]
  }

  /** Insertion adds exactly one t, keeps a sorted sequence sorted, and
      puts t behind every key <= t. */
  lemma {:induction false} InsertSpec(s: seq<int>, t: int)
    ensures multiset(Insert(s, t)) == multiset(s) + multiset{t}
    ensures Sorted(s) ==> Sorted(Insert(s, t))
    ensures Insert(s, t)[UpperBound(s, t)] == t
  {
    InsertAtKeepsOrder(s, UpperBound(s, t), t);
  }

  /** Placing t at an index k where the keys before it are <= t and the
      keys from k on are >= t keeps the order and adds one t. */
  lemma {:induction false} InsertAtKeepsOrder(s: seq<int>, k: nat, t: int)
    requires k <= |s|
    requires forall i :: 0 <= i < k ==> s[i] <= t
    requires k < |s| ==> s[k] >= t
    ensures multiset(s[..k] + [t] + s[k..]) == multiset(s) + multiset{t}
    ensures Sorted(s) ==> Sorted(s[..k] + [t] + s[k..])
  {
    var r := s[..k] + [t] + s[k..];
    assert multiset(r) == multiset(s) + multiset{t} by {
      assert s == s[..k] + s[k..];
    }
    if Sorted(s) {
      forall i, j | 0 <= i < j < |r| ensures r[i] <= r[j] {
        var a := if i < k then s[i] else if i == k then t else s[i - 1];
        var b := if j < k then s[j] else if j == k then t else s[j - 1];
        assert r[i] == a && r[j] == b;
        if k < |s| && i <= k && k < j { assert t <= s[k] <= s[j - 1]; }
      }
    }
  }

  /** Removal of the first occurrence of t, found where a sorted search for
      t stops; s itself when the search does not stop on t. */
  function RemoveOne(s: seq<int>, t: int): (r: seq<int>)
    ensures |r| == |s| || |r| == |s| - 1
  {
    var k := LowerBound(s, t);
    if k < |s| && s[k] == t then s[..k] + s[k+1..] else s
  }

  /** Removal keeps a sorted sequence sorted; it removes exactly one t from
      a sorted sequence that holds one, and changes nothing otherwise. */
  lemma {:induction false} RemoveOneSpec(s: seq<int>, t: int)
    ensures Sorted(s) ==> Sorted(RemoveOne(s, t))
    ensures t !in s ==> RemoveOne(s, t) == s
    ensures Sorted(s) && t in s ==>
      |RemoveOne(s, t)| == |s| - 1 && multiset(RemoveOne(s, t)) == multiset(s) - multiset{t}
  {
    var k := LowerBound(s, t);
    if k < |s| && s[k] == t {
      DeleteAtKeepsOrder(s, k);
    } else if Sorted(s) {
      forall j | 0 <= j < |s| ensures s[j] != t {
        if j >= k { assert s[j] >= s[k] > t; }
      }
    }
  }

  /** Deleting the entry at k removes one s[k] and keeps the order. */
  lemma DeleteAtKeepsOrder(s: seq<int>, k: nat)
    requires k < |s|
    ensures multiset(s[..k] + s[k+1..]) == multiset(s) - multiset{s[k]}
    ensures Sorted(s) ==> Sorted(s[..k] + s[k+1..])
  {
    assert s == s[..k] + [s[k]] + s[k+1..];
    if Sorted(s) {
      DeleteAtSorted(s, k);
    }
  }

  lemma DeleteAtSorted(s: seq<int>, k: nat)
    requires k < |s| && Sorted(s)
    ensures Sorted(s[..k] + s[k+1..])
  {
    var r := s[..k] + s[k+1..];
    assert forall i :: 0 <= i < |r| ==> r[i] == s[if i < k then i else i + 1];
  }

  /** Inserting t in front of the equal keys (at LowerBound) gives the same
      sequence as inserting it behind them (at UpperBound). */
  lemma {:induction false} InsertBeforeEqualKeys(s: seq<int>, t: int)
    requires Sorted(s)
    ensures s[..LowerBound(s, t)] + [t] + s[LowerBound(s, t)..] == Insert(s, t)
  {
    var lo, hi := LowerBound(s, t), UpperBound(s, t);
    var a, b := s[..lo] + [t] + s[lo..], Insert(s, t);
    assert b == s[..hi] + [t] + s[hi..];
    forall i | 0 <= i < |a|
      ensures a[i] == b[i]
    {
      if lo <= i <= hi {
        if i > lo { assert s[i - 1] >= t && s[i - 1] <= t; }
      }
    }
  }

  /** In a sorted sequence, deleting any one occurrence of t is the same as
      `RemoveOne`: equal keys are adjacent and indistinguishable. */
  lemma {:induction false} RemoveAnyOccurrence(s: seq<int>, j: nat, t: int)
    requires Sorted(s) && j < |s| && s[j] == t
    ensures s[..j] + s[j+1..] == RemoveOne(s, t)
  {
    var k := LowerBound(s, t);
    assert k <= j;
    assert s[k] == t by { assert s[k] >= t && s[k] <= s[j]; }
    var a, b := s[..j] + s[j+1..], s[..k] + s[k+1..];
    assert RemoveOne(s, t) == b;
    forall i | 0 <= i < |a|
      ensures a[i] == b[i]
    {
      if k <= i < j {
        assert s[i] >= t && s[i] <= s[j] && s[i + 1] <= s[j] && s[i + 1] >= s[k];
      }
    }
  }

  /** Removing a key k from a sorted lo + [k] + hi leaves lo + hi, which
      is sorted. */
  lemma {:induction false} RemoveBetween(lo: seq<int>, k: int, hi: seq<int>)
    requires Sorted(lo + [k] + hi)
    ensures RemoveOne(lo + [k] + hi, k) == lo + hi && Sorted(lo + hi)
  {
    var s := lo + [k] + hi;
    assert s[..|lo|] == lo && s[|lo| + 1..] == hi;
    RemoveAnyOccurrence(s, |lo|, k);
    RemoveOneSpec(s, k);
  }

  /** When every key of b is <= t and every key of a is > t, a new t placed
      between them is exactly the sorted insertion of t into b + a. */
  lemma {:induction false} InsertBetween(b: seq<int>, a: seq<int>, t: int)
    requires forall x :: x in b ==> x <= t
    requires forall x :: x in a ==> x > t
    ensures b + [t] + a == Insert(b + a, t)
  {
    var s := b + a;
    assert forall i :: 0 <= i < |b| ==> b[i] in b;
    assert |a| > 0 ==> a[0] in a;
    var k := UpperBound(s, t);
    assert forall i :: 0 <= i < |b| ==> s[i] <= t;
    assert |b| < |s| ==> s[|b|] > t;
    assert s[..k] == b && s[k..] == a;
  }

  /** A key between two runs: the whole is in order exactly when both runs
      are, everything on the left is <= k and everything on the right >= k. */
  lemma SortedAround(a: seq<int>, k: int, b: seq<int>)
    ensures Sorted(a + [k] + b) <==>
      Sorted(a) && Sorted(b) &&
      (forall x :: x in a ==> x <= k) && (forall x :: x in b ==> k <= x)
  {
    if Sorted(a + [k] + b) {
      SortedAroundParts(a, k, b);
    }
    if Sorted(a) && Sorted(b) && (forall x :: x in a ==> x <= k) && (forall x :: x in b ==> k <= x) {
      SortedAroundWhole(a, k, b);
    }
  }

  lemma SortedAroundParts(a: seq<int>, k: int, b: seq<int>)
    requires Sorted(a + [k] + b)
    ensures Sorted(a) && Sorted(b)
    ensures (forall x :: x in a ==> x <= k) && (forall x :: x in b ==> k <= x)
  {
    var s := a + [k] + b;
    assert forall i :: 0 <= i < |a| ==> s[i] == a[i];
    assert s[|a|] == k;
    assert forall i :: 0 <= i < |b| ==> s[|a| + 1 + i] == b[i];
  }

  lemma SortedAroundWhole(a: seq<int>, k: int, b: seq<int>)
    requires Sorted(a) && Sorted(b)
    requires (forall x :: x in a ==> x <= k) && (forall x :: x in b ==> k <= x)
    ensures Sorted(a + [k] + b)
  {
    var s := a + [k] + b;
    forall i, j | 0 <= i < j < |s| ensures s[i] <= s[j] {
      if i < |a| { assert s[i] == a[i] && a[i] in a; }
      if j > |a| { assert s[j] == b[j - |a| - 1] && b[j - |a| - 1] in b; }
    }
  }
}
