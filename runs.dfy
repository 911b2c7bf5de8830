/** Sequential runs of the benchmark: every key of itemsToAdd is added,
    then every key of itemsToRemove is removed, one call after another
    (the worker threads run one after another, each over its slice, so
    the keys are taken in array order). Each collection's effect on its
    keys is the one its class promises: Insert for `add`, RemoveOne for
    `remove` of the fine-grained list and both trees, CoarseRemove for
    the coarse-grained list. */
module Runs {
  import opened SortedSeq
  import CoarseGrainedList

  /** The keys after adding xs in order. */
  function AddAll(s: seq<int>, xs: seq<int>): (r: seq<int>)
    ensures |r| == |s| + |xs|
    decreases |xs|
  {
    if xs == [] then s else AddAll(Insert(s, xs[0]), xs[1..])
  }

  /** The keys after removing ys in order, one occurrence each. */
  function RemoveAll(s: seq<int>, ys: seq<int>): (r: seq<int>)
    ensures |s| - |ys| <= |r| <= |s|
    decreases |ys|
  {
    if ys == [] then s else RemoveAll(RemoveOne(s, ys[0]), ys[1..])
  }

  /** The keys after removing ys in order from a coarse-grained list. */
  function CoarseRemoveAll(s: seq<int>, ys: seq<int>): (r: seq<int>)
    ensures |s| - |ys| <= |r| <= |s|
    decreases |ys|
  {
    if ys == [] then s else CoarseRemoveAll(CoarseGrainedList.CoarseRemove(s, ys[0]), ys[1..])
  }

  /** Each removal of the run finds its key present when it runs: the
      trees' precondition holds and the fine-grained list never reaches
      its tail. */
  predicate EveryRemoveFinds(s: seq<int>, ys: seq<int>)
    decreases |ys|
  {
    ys == [] || (ys[0] in s && EveryRemoveFinds(RemoveOne(s, ys[0]), ys[1..]))
  }

  /** Adding keeps the keys sorted and adds exactly the multiset xs. */
  lemma {:induction false} AddAllSpec(s: seq<int>, xs: seq<int>)
    ensures Sorted(s) ==> Sorted(AddAll(s, xs))
    ensures multiset(AddAll(s, xs)) == multiset(s) + multiset(xs)
    decreases |xs|
  {
    if xs != [] {
      InsertSpec(s, xs[0]);
      AddAllSpec(Insert(s, xs[0]), xs[1..]);
      assert xs == [xs[0]] + xs[1..];
    }
  }

  /** Removing keys that are all there (with their multiplicities) finds
      each of them and removes exactly the multiset ys. */
  lemma {:induction false} RemoveAllSpec(s: seq<int>, ys: seq<int>)
    requires Sorted(s) && multiset(ys) <= multiset(s)
    ensures EveryRemoveFinds(s, ys)
    ensures multiset(RemoveAll(s, ys)) == multiset(s) - multiset(ys)
    decreases |ys|
  {
    if ys != [] {
      RemoveStep(s, ys);
      RemoveAllSpec(RemoveOne(s, ys[0]), ys[1..]);
    }
  }

  /** One removal of a run: the first key is present, and the rest of the
      run still finds its keys in what is left. */
  lemma RemoveStep(s: seq<int>, ys: seq<int>)
    requires Sorted(s) && ys != [] && multiset(ys) <= multiset(s)
    ensures ys[0] in s && Sorted(RemoveOne(s, ys[0]))
    ensures multiset(ys[1..]) <= multiset(RemoveOne(s, ys[0]))
    ensures multiset(RemoveOne(s, ys[0])) - multiset(ys[1..]) == multiset(s) - multiset(ys)
  {
    var y, rest := ys[0], ys[1..];
    assert ys == [y] + rest;
    assert multiset(ys) == multiset{y} + multiset(rest);
    assert y in multiset(s);
    RemoveOneSpec(s, y);
  }

  /** When the keys to remove are a permutation of the keys added (as
      createWorkData makes them), a run over an empty fine-grained list
      or tree finds every key and ends empty. */
  lemma RunEmpties(xs: seq<int>, ys: seq<int>)
    requires multiset(ys) == multiset(xs)
    ensures EveryRemoveFinds(AddAll([], xs), ys)
    ensures RemoveAll(AddAll([], xs), ys) == []
  {
    assert Sorted([]);
    AddAllSpec([], xs);
    RemoveAllSpec(AddAll([], xs), ys);
  }

  /** A coarse-grained list never loses its first key: removals leave it
      non-empty with the same head key. */
  lemma {:induction false} CoarseRunKeepsHead(s: seq<int>, ys: seq<int>)
    requires s != []
    ensures CoarseRemoveAll(s, ys) != [] && CoarseRemoveAll(s, ys)[0] == s[0]
    decreases |ys|
  {
    if ys != [] {
      var r := CoarseGrainedList.CoarseRemove(s, ys[0]);
      var k := LowerBound(s, ys[0]);
      if s[0] != ys[0] && k < |s| && s[k] == ys[0] {
        assert k > 0 && r == s[..k] + s[k + 1..];
      }
      assert r != [] && r[0] == s[0];
      CoarseRunKeepsHead(r, ys[1..]);
    }
  }

  /** So a run of at least one add over an empty coarse-grained list never
      ends empty, whatever is removed. */
  lemma CoarseRunNotEmpty(xs: seq<int>, ys: seq<int>)
    requires xs != []
    ensures CoarseRemoveAll(AddAll([], xs), ys) != []
  {
    AddAllSpec([], xs);
    assert xs[0] in multiset(AddAll([], xs));
    CoarseRunKeepsHead(AddAll([], xs), ys);
  }
}
