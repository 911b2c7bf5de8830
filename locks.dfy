/** Ghost bookkeeping of the per-node locks of the fine-grained
    structures: the set of locks the running operation holds. The
    preconditions are the lock discipline: a thread takes only a lock it
    does not hold (the source's locks are reentrant, but no operation
    relies on that) and releases only one it holds. */
module Locks {
  ghost function Acquire<N>(held: set<N>, n: N): set<N>
    requires n !in held
  {
    held + {n}
  }

  ghost function Release<N>(held: set<N>, n: N): set<N>
    requires n in held
  {
    held - {n}
  }

  /** One hand-over-hand step: holding the locks of a and b, release a,
      then lock the next node c. */
  lemma HandOverHand<N>(a: N, b: N, c: N)
    requires a != b && b != c
    ensures b in {a, b} - {a} && c !in {a, b} - {a}
    ensures ({a, b} - {a}) + {c} == {b, c}
  {
  }
}
