/** The workload of the benchmark driver: the seed computed from the
    command-line numbers, the arrays of keys to add and to remove, the
    checks on the arguments and the per-thread slices of those arrays.
    `java.util.Random` is not modelled: the values it would draw are
    parameters (`draws` for `nextInt(bound)`, `values` for `nextInt()`). */
module Workload {
  /** A Java `int`. */
  newtype int32 = x: int | -0x8000_0000 <= x < 0x8000_0000

  const TWO_TO_64: int := 0x1_0000_0000_0000_0000
  const TWO_TO_63: int := 0x8000_0000_0000_0000

  /** A Java `long`, held as its two's-complement bit pattern read as an
      unsigned number. */
  type Bits64 = x: int | 0 <= x < TWO_TO_64

  function Pow2(k: nat): (p: nat)
    ensures p >= 1
  {
    if k == 0 then 1 else 2 * Pow2(k - 1)
  }

  /** The widening cast `(long) x`: sign extension. */
  function Widen(x: int32): Bits64 {
    if x >= 0 then x as int else x as int + TWO_TO_64
  }

  /** The value of a bit pattern as a signed `long`. */
  function Signed(b: Bits64): int {
    if b < TWO_TO_63 then b else b - TWO_TO_64
  }

  /** `b << 16` on a `long`: the bits shifted out at the top are lost. */
  function ShiftLeft16(b: Bits64): Bits64 {
    (b * 0x1_0000) % TWO_TO_64
  }

  /** Bitwise or of two bit patterns, bit by bit from the lowest. */
  function Or(a: nat, b: nat): nat
    decreases a + b
  {
    if a == 0 then b
    else if b == 0 then a
    else 2 * Or(a / 2, b / 2) + (if a % 2 == 1 || b % 2 == 1 then 1 else 0)
  }

  /** Or of two patterns of k bits has k bits. */
  lemma {:induction false} OrBelow(a: nat, b: nat, k: nat)
    requires a < Pow2(k) && b < Pow2(k)
    ensures Or(a, b) < Pow2(k)
    decreases a + b
  {
    if a != 0 && b != 0 {
      assert k > 0;
      OrBelow(a / 2, b / 2, k - 1);
    }
  }

  /** `a | b` on two `long` bit patterns. */
  function Or64(a: Bits64, b: Bits64): Bits64 {
    Pow2Values();
    OrBelow(a, b, 64);
    Or(a, b)
  }

  /** Or with a value below 2^k into a pattern whose k low bits are zero
      is addition. */
  lemma {:induction false} OrIntoZeroBits(a: nat, b: nat, k: nat)
    requires b < Pow2(k)
    ensures Or(a * Pow2(k), b) == a * Pow2(k) + b
  {
    if k > 0 && a != 0 && b != 0 {
      var x := a * Pow2(k - 1);
      assert a * Pow2(k) == 2 * x;
      MulAtLeast(a, Pow2(k - 1));
      OrIntoZeroBits(a, b / 2, k - 1);
      assert Or(2 * x, b) == 2 * Or(x, b / 2) + b % 2;
    }
  }

  lemma {:induction false} MulAtLeast(e: int, m: int)
    requires e >= 1 && m > 0
    ensures e * m >= m
    decreases e
  {
    if e > 1 {
      MulAtLeast(e - 1, m);
      assert e * m == (e - 1) * m + m;
    }
  }

  lemma {:induction false} Pow2Add(a: nat, b: nat)
    ensures Pow2(a + b) == Pow2(a) * Pow2(b)
    decreases a
  {
    if a > 0 {
      Pow2Add(a - 1, b);
      assert Pow2(a + b) == 2 * Pow2(a - 1 + b);
    }
  }

  /** The two powers the seed arithmetic works with. */
  lemma Pow2Values()
    ensures Pow2(16) == 0x1_0000 && Pow2(64) == TWO_TO_64
  {
    assert Pow2(2) == 4;
    Pow2Add(2, 2);
    assert Pow2(4) == 16;
    Pow2Add(4, 4);
    assert Pow2(8) == 256;
    Pow2Add(8, 8);
    assert Pow2(16) == 0x1_0000;
    Pow2Add(16, 16);
    assert Pow2(32) == 0x1_0000_0000;
    Pow2Add(32, 32);
  }

  /** computeSeed: p2 shifted up by 16, or-ed with p1, shifted up by 16
      again and or-ed with p3, in `long` arithmetic. */
  function ComputeSeed(p1: int32, p2: int32, p3: int32): (seed: int)
    ensures -TWO_TO_63 <= seed < TWO_TO_63
  {
    var r := ShiftLeft16(Widen(p2));
    var r := Or64(r, Widen(p1));
    var r := ShiftLeft16(r);
    Signed(Or64(r, Widen(p3)))
  }

  /** One step of computeSeed: x shifted up by 16 and or-ed with a value
      below 2^16 appends that value, when nothing is shifted out. */
  lemma ShiftOr(x: Bits64, b: Bits64)
    requires x < 0x1_0000_0000_0000 && b < 0x1_0000
    ensures Or64(ShiftLeft16(x), b) == x * 0x1_0000 + b
  {
    Pow2Values();
    assert ShiftLeft16(x) == x * 0x1_0000;
    OrIntoZeroBits(x, b, 16);
  }

  /** On non-negative arguments with p1 and p3 below 2^16 the seed places
      p2, p1 and p3 side by side: p2 * 2^32 + p1 * 2^16 + p3. */
  lemma SeedValue(p1: int32, p2: int32, p3: int32)
    requires 0 <= p1 < 0x1_0000 && 0 <= p3 < 0x1_0000 && 0 <= p2
    ensures ComputeSeed(p1, p2, p3) == p2 as int * 0x1_0000_0000 + p1 as int * 0x1_0000 + p3 as int
  {
    var a, b, c := p2 as int, p1 as int, p3 as int;
    ShiftOr(a, b);
    var r := a * 0x1_0000 + b;
    assert r < 0x1_0000_0000_0000;
    ShiftOr(r, c);
    assert r * 0x1_0000 + c < TWO_TO_63;
  }

  /** A number made of a high part and a part below m determines both. */
  lemma SplitUnique(a: int, b: int, c: int, d: int, m: int)
    requires m > 0 && 0 <= b < m && 0 <= d < m && a * m + b == c * m + d
    ensures a == c && b == d
  {
    if a > c {
      MulAtLeast(a - c, m);
    } else if a < c {
      MulAtLeast(c - a, m);
    }
  }

  /** The seed is unique: on that domain, different arguments give
      different seeds. */
  lemma SeedUnique(p1: int32, p2: int32, p3: int32, q1: int32, q2: int32, q3: int32)
    requires 0 <= p1 < 0x1_0000 && 0 <= p3 < 0x1_0000 && 0 <= p2
    requires 0 <= q1 < 0x1_0000 && 0 <= q3 < 0x1_0000 && 0 <= q2
    requires ComputeSeed(p1, p2, p3) == ComputeSeed(q1, q2, q3)
    ensures p1 == q1 && p2 == q2 && p3 == q3
  {
    SeedValue(p1, p2, p3);
    SeedValue(q1, q2, q3);
    var m := 0x1_0000;
    assert (p2 as int * m + p1 as int) * m + p3 as int == (q2 as int * m + q1 as int) * m + q3 as int;
    SplitUnique(p2 as int * m + p1 as int, p3 as int, q2 as int * m + q1 as int, q3 as int, m);
    SplitUnique(p2 as int, p1 as int, q2 as int, q1 as int, m);
  }

  /** The two entries i and j of s exchanged. */
  function Swap(s: seq<int>, i: nat, j: nat): (r: seq<int>)
    requires i < |s| && j < |s|
    ensures |r| == |s| && r[i] == s[j] && r[j] == s[i]
  {
    s[i := s[j]][j := s[i]]
  }

  /** An exchange keeps the entries. */
  lemma SwapPermutes(s: seq<int>, i: nat, j: nat)
    requires i < |s| && j < |s|
    ensures multiset(Swap(s, i, j)) == multiset(s)
  {
  }

  /** Draws fit an array of length n: one draw per position, each a
      valid index. */
  predicate DrawsFor(draws: seq<int>, n: nat) {
    |draws| == n && forall k :: 0 <= k < |draws| ==> 0 <= draws[k] < n
  }

  /** The swaps of `permute` from position i on: position i is exchanged
      with position draws[i], then i + 1 with draws[i + 1], and so on. */
  function Shuffle(s: seq<int>, draws: seq<int>, i: nat): (r: seq<int>)
    requires DrawsFor(draws, |s|) && i <= |s|
    ensures |r| == |s|
    decreases |s| - i
  {
    if i == |s| then s else Shuffle(Swap(s, i, draws[i]), draws, i + 1)
  }

  /** Shuffling permutes the entries. */
  lemma {:induction false} ShufflePermutes(s: seq<int>, draws: seq<int>, i: nat)
    requires DrawsFor(draws, |s|) && i <= |s|
    ensures multiset(Shuffle(s, draws, i)) == multiset(s)
    decreases |s| - i
  {
    if i < |s| {
      var t := Swap(s, i, draws[i]);
      SwapPermutes(s, i, draws[i]);
      ShufflePermutes(t, draws, i + 1);
    }
  }

  /** permute: for each position i in turn, exchange it with the drawn
      position. */
  method Permute(a: array<int>, draws: seq<int>)
    requires DrawsFor(draws, a.Length)
    modifies a
    ensures a[..] == Shuffle(old(a[..]), draws, 0)
    ensures multiset(a[..]) == multiset(old(a[..]))
  {
    var i := 0;
    while i < a.Length
      invariant 0 <= i <= a.Length
      invariant Shuffle(a[..], draws, i) == Shuffle(old(a[..]), draws, 0)
    {
      var r := draws[i];
      ghost var before := a[..];
      var swapped := a[i];
      a[i] := a[r];
      a[r] := swapped;
      assert a[..] == Swap(before, i, r);
      i := i + 1;
    }
    ShufflePermutes(old(a[..]), draws, 0);
  }

  /** The keys 0, 1, ..., n - 1. */
  function Range(n: nat): (r: seq<int>)
    ensures |r| == n && forall i :: 0 <= i < n ==> r[i] == i
  {
    seq(n, i => i)
  }

  /** Each of 0, ..., n - 1 occurs once in Range(n), nothing else occurs. */
  lemma {:induction false} RangeCount(n: nat, x: int)
    ensures multiset(Range(n))[x] == if 0 <= x < n then 1 else 0
  {
    if n > 0 {
      assert Range(n) == Range(n - 1) + [n - 1];
      RangeCount(n - 1, x);
    }
  }

  /** A permutation of 0, ..., n - 1 has no double keys and only keys in
      [0, n). */
  lemma NoDoubles(s: seq<int>, n: nat)
    requires multiset(s) == multiset(Range(n))
    ensures forall i :: 0 <= i < |s| ==> 0 <= s[i] < n
    ensures forall i, j :: 0 <= i < j < |s| ==> s[i] != s[j]
  {
    forall i | 0 <= i < |s|
      ensures 0 <= s[i] < n
    {
      assert s[i] in multiset(s);
      RangeCount(n, s[i]);
    }
    forall i, j | 0 <= i < j < |s|
      ensures s[i] != s[j]
    {
      assert s == s[..j] + s[j..];
      assert s[i] in multiset(s[..j]) && s[j] in multiset(s[j..]);
      RangeCount(n, s[i]);
    }
  }

  /** createWorkDataWithoutDoubles: both arrays are filled with 0, ...,
      n - 1 and shuffled with their own draws. */
  method CreateWorkDataWithoutDoubles(itemsToAdd: array<int>, itemsToRemove: array<int>,
                                      drawsAdd: seq<int>, drawsRemove: seq<int>)
    requires itemsToAdd != itemsToRemove && itemsToAdd.Length == itemsToRemove.Length
    requires DrawsFor(drawsAdd, itemsToAdd.Length) && DrawsFor(drawsRemove, itemsToRemove.Length)
    modifies itemsToAdd, itemsToRemove
    ensures itemsToAdd[..] == Shuffle(Range(itemsToAdd.Length), drawsAdd, 0)
    ensures itemsToRemove[..] == Shuffle(Range(itemsToAdd.Length), drawsRemove, 0)
    ensures multiset(itemsToAdd[..]) == multiset(Range(itemsToAdd.Length))
    ensures multiset(itemsToRemove[..]) == multiset(Range(itemsToAdd.Length))
  {
    var i := 0;
    while i < itemsToAdd.Length
      invariant 0 <= i <= itemsToAdd.Length
      invariant itemsToAdd[..i] == Range(i) && itemsToRemove[..i] == Range(i)
    {
      itemsToAdd[i] := i;
      itemsToRemove[i] := i;
      assert itemsToAdd[..i + 1] == itemsToAdd[..i] + [i];
      assert itemsToRemove[..i + 1] == itemsToRemove[..i] + [i];
      assert Range(i + 1) == Range(i) + [i];
      i := i + 1;
    }
    assert itemsToAdd[..] == itemsToAdd[..i] && itemsToRemove[..] == itemsToRemove[..i];
    Permute(itemsToAdd, drawsAdd);
    Permute(itemsToRemove, drawsRemove);
  }

  /** createWorkDataWithDoubles: both arrays receive the same drawn
      values, and only the keys to remove are shuffled, so every key
      removed was added. */
  method CreateWorkDataWithDoubles(itemsToAdd: array<int>, itemsToRemove: array<int>,
                                   values: seq<int>, drawsRemove: seq<int>)
    requires itemsToAdd != itemsToRemove && itemsToAdd.Length == itemsToRemove.Length
    requires |values| == itemsToAdd.Length && DrawsFor(drawsRemove, itemsToRemove.Length)
    modifies itemsToAdd, itemsToRemove
    ensures itemsToAdd[..] == values
    ensures itemsToRemove[..] == Shuffle(values, drawsRemove, 0)
    ensures multiset(itemsToRemove[..]) == multiset(itemsToAdd[..])
  {
    var i := 0;
    while i < itemsToAdd.Length
      invariant 0 <= i <= itemsToAdd.Length
      invariant itemsToAdd[..i] == values[..i] && itemsToRemove[..i] == values[..i]
    {
      var nextRandom := values[i];
      itemsToAdd[i] := nextRandom;
      itemsToRemove[i] := nextRandom;
      assert itemsToAdd[..i + 1] == itemsToAdd[..i] + [nextRandom];
      assert itemsToRemove[..i + 1] == itemsToRemove[..i] + [nextRandom];
      assert values[..i + 1] == values[..i] + [nextRandom];
      i := i + 1;
    }
    assert itemsToAdd[..] == itemsToAdd[..i] && itemsToRemove[..] == itemsToRemove[..i] && values == values[..i];
    Permute(itemsToRemove, drawsRemove);
  }

  /** createWorkData: in both modes the keys to remove are a permutation
      of the keys to add; without doubles they are 0, ..., n - 1. */
  method CreateWorkData(itemsToAdd: array<int>, itemsToRemove: array<int>, doubles: bool,
                        values: seq<int>, drawsAdd: seq<int>, drawsRemove: seq<int>)
    requires itemsToAdd != itemsToRemove && itemsToAdd.Length == itemsToRemove.Length
    requires doubles ==> |values| == itemsToAdd.Length
    requires !doubles ==> DrawsFor(drawsAdd, itemsToAdd.Length)
    requires DrawsFor(drawsRemove, itemsToRemove.Length)
    modifies itemsToAdd, itemsToRemove
    ensures multiset(itemsToRemove[..]) == multiset(itemsToAdd[..])
    ensures doubles ==> itemsToAdd[..] == values
    ensures !doubles ==> multiset(itemsToAdd[..]) == multiset(Range(itemsToAdd.Length))
  {
    if doubles {
      CreateWorkDataWithDoubles(itemsToAdd, itemsToRemove, values, drawsRemove);
    } else {
      CreateWorkDataWithoutDoubles(itemsToAdd, itemsToRemove, drawsAdd, drawsRemove);
    }
  }

  datatype Option<T> = None | Some(value: T)

  datatype Result<T, E> = Ok(value: T) | Err(error: E)

  /** The six collections the driver can run. */
  datatype Kind = Cgl | Cgt | Fgl | Fgt | Lfl | Lft

  /** The command-line name of each collection. */
  function Name(k: Kind): (name: string)
    ensures |name| == 3
  {
    match k
    case Cgl => "cgl"
    case Cgt => "cgt"
    case Fgl => "fgl"
    case Fgt => "fgt"
    case Lfl => "lfl"
    case Lft => "lft"
  }

  /** The choice of performWork; None stands for the usage error. */
  function ParseKind(name: string): (k: Option<Kind>)
    ensures k.Some? ==> Name(k.value) == name
  {
    if name == "cgl" then Some(Cgl)
    else if name == "cgt" then Some(Cgt)
    else if name == "fgl" then Some(Fgl)
    else if name == "fgt" then Some(Fgt)
    else if name == "lfl" then Some(Lfl)
    else if name == "lft" then Some(Lft)
    else None
  }

  /** Every collection is chosen by its own name, and by no other. */
  lemma ParseName(k: Kind, name: string)
    ensures ParseKind(Name(k)) == Some(k)
    ensures ParseKind(name) == Some(k) <==> name == Name(k)
  {
    match k
    case Cgl =>
    case Cgt =>
    case Fgl =>
    case Fgt =>
    case Lfl =>
    case Lft =>
  }

  /** Whether the keys may repeat: true except for the lock-free tree. */
  function Doubles(k: Kind): (doubles: bool)
    ensures !doubles <==> k == Lft
  {
    match k
    case Lft => false
    case _ => true
  }

  /** The numbers of an accepted command line. */
  datatype Config = Config(nrThreads: nat, nrItems: nat, workTime: nat, innerWorkTime: nat, debug: bool)

  /** Why a command line is refused: the usage message, "undiv", or a
      sixth argument other than "debug". */
  datatype ArgError = Usage | Undivisible | NotDebug

  /** The checks of main, in their order, on the number of arguments,
      the parsed numbers and the sixth argument (read only when there are
      six). */
  function CheckArgs(argCount: int, nrThreads: int, nrItems: int, workTime: int, innerWorkTime: int,
                     last: string): (r: Result<Config, ArgError>)
    ensures r.Ok? <==>
      5 <= argCount <= 6 && nrThreads >= 1 && nrItems >= 1 && nrItems % nrThreads == 0 &&
      workTime >= 0 && innerWorkTime >= 0 && (argCount == 6 ==> last == "debug")
    ensures r.Ok? ==> r.value == Config(nrThreads, nrItems, workTime, innerWorkTime, argCount == 6)
    ensures r == Err(Undivisible) ==> 5 <= argCount <= 6 && nrThreads >= 1 && nrItems >= 1
  {
    if argCount < 5 || argCount > 6 then Err(Usage)
    else if nrThreads < 1 then Err(Usage)
    else if nrItems < 1 then Err(Usage)
    else if nrItems % nrThreads != 0 then Err(Undivisible)
    else if workTime < 0 then Err(Usage)
    else if innerWorkTime < 0 then Err(Usage)
    else if argCount == 6 && last != "debug" then Err(NotDebug)
    else Ok(Config(nrThreads, nrItems, workTime, innerWorkTime, argCount == 6))
  }

  /** The first index of thread id's slice, nrIterations * id. */
  function StartIndex(id: int, nrIterations: int): (start: int)
    ensures id >= 0 && nrIterations >= 0 ==> start >= 0
  {
    nrIterations * id
  }

  lemma {:induction false} MulMonotone(a: int, b: int, k: nat)
    requires a <= b
    ensures a * k <= b * k
    decreases b - a
  {
    if a < b {
      MulMonotone(a + 1, b, k);
      assert (a + 1) * k == a * k + k;
    }
  }

  /** Index x lies in the slice of nrIterations indices that starts at
      StartIndex(id, nrIterations): WorkerThread's loop bounds. */
  predicate InSlice(x: int, id: int, nrIterations: int): (b: bool)
    ensures b ==> nrIterations >= 1
  {
    StartIndex(id, nrIterations) <= x < StartIndex(id, nrIterations) + nrIterations
  }

  /** Accepted arguments give each thread k = nrItems / nrThreads >= 1
      indices, all inside [0, nrItems). */
  lemma SlicesInside(config: Config)
    requires config.nrThreads >= 1 && config.nrItems >= 1 && config.nrItems % config.nrThreads == 0
    ensures config.nrItems / config.nrThreads >= 1
    ensures forall id, x :: 0 <= id < config.nrThreads && InSlice(x, id, config.nrItems / config.nrThreads) ==>
      0 <= x < config.nrItems
  {
    var n, t := config.nrItems, config.nrThreads;
    var k := n / t;
    assert n == t * k;
    forall id, x | 0 <= id < t && InSlice(x, id, k)
      ensures 0 <= x < n
    {
      MulMonotone(0, id, k);
      MulMonotone(id + 1, t, k);
      assert (id + 1) * k == id * k + k;
    }
  }

  /** The thread whose slice holds index x. */
  function Owner(x: int, nrIterations: int): int
    requires nrIterations >= 1
  {
    x / nrIterations
  }

  /** Every index in [0, nrItems) is in the slice of a thread: its owner. */
  lemma SlicesCover(config: Config)
    requires config.nrThreads >= 1 && config.nrItems >= 1 && config.nrItems % config.nrThreads == 0
    ensures config.nrItems / config.nrThreads >= 1
    ensures forall x :: 0 <= x < config.nrItems ==>
      0 <= Owner(x, config.nrItems / config.nrThreads) < config.nrThreads &&
      InSlice(x, Owner(x, config.nrItems / config.nrThreads), config.nrItems / config.nrThreads)
  {
    var n, t := config.nrItems, config.nrThreads;
    var k := n / t;
    assert n == t * k;
    forall x | 0 <= x < n
      ensures 0 <= Owner(x, k) < t && InSlice(x, Owner(x, k), k)
    {
      var id := x / k;
      assert k * id <= x < k * id + k;
      if id >= t {
        MulMonotone(t, id, k);
      }
    }
  }

  /** No index is in the slices of two threads. */
  lemma SlicesDisjoint(config: Config)
    requires config.nrThreads >= 1 && config.nrItems >= 1 && config.nrItems % config.nrThreads == 0
    ensures forall id1, id2, x ::
      (InSlice(x, id1, config.nrItems / config.nrThreads) && InSlice(x, id2, config.nrItems / config.nrThreads))
      ==> id1 == id2
  {
    var k: nat := config.nrItems / config.nrThreads;
    forall id1, id2, x | InSlice(x, id1, k) && InSlice(x, id2, k)
      ensures id1 == id2
    {
      SliceGap(id1, id2, k);
      SliceGap(id2, id1, k);
    }
  }

  /** A later thread's slice starts at or after the end of an earlier one's. */
  lemma SliceGap(i: int, j: int, k: nat)
    ensures i < j ==> StartIndex(i, k) + k <= StartIndex(j, k)
  {
    if i < j {
      MulMonotone(i + 1, j, k);
    }
  }
}
