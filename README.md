# Lock-based ordered collections, modelled in Dafny

This project models the benchmark of ordered collections behind the
two-method interface `Sorted` (`add(t)`, `remove(t)`):

- **CoarseGrainedList**: a sorted singly-linked list with a nullable
  `head`, guarded by one lock;
- **FineGrainedList**: a sorted list between a `head` and a `tail`
  sentinel, with hand-over-hand per-node locks;
- **CoarseGrainedTree**: an unbalanced binary search tree hanging from the
  `left` child of a key-less `guard` node, guarded by one lock. Removal
  promotes the in-order predecessor;
- **FineGrainedTree**: the same tree with hand-over-hand per-node locks.

It also models the workload helpers of the driver `Main`:

- the seed computed from the command-line numbers;
- the in-place `permute`;
- the two ways of filling the arrays of keys to add and to remove;
- the argument checks and the per-thread slices.

## How the model is built

Each collection is a Dafny `class` with its real heap nodes and their
links, updated in place as the Java code does:

- the lists use `ListNode.Node`;
- the trees use `Bst.TNode`.

A ghost abstraction accompanies each class:

- a ghost `Spine` (the list nodes in order) or a ghost `Tree` (the shape);
- a ghost `Repr`;
- `Contents()`, the in-order key sequence.

`Valid()` ties the links to that abstraction.

Each `add` and `remove` is proved against the pure functions of module
`SortedSeq`:

- `Insert` places t behind every key <= t, as the coarse list and both
  trees do;
- `RemoveOne` removes the key at the first position whose key is >= t, if
  that key is t.

The facts the source promises are lemmas about those functions:

- sortedness is kept;
- the multiset gains or loses exactly one t;
- an absent key changes nothing.

`Runs` combines them into sequential runs of the benchmark. Its lemmas
are stated over key sequences, not over class instances. They apply to
the four classes through the `Contents()` contracts of `Add` and
`Remove`, which give the new key sequence as `Insert`, `RemoveOne` or
`CoarseRemove` of the old one.

The walks, the splices and `removeNode`'s predecessor promotion are
methods with loop invariants, over the same nodes and in the same order
as the source.

The fine-grained variants carry the lock discipline as a ghost set `held`
(module `Locks`):

- a lock is taken only when it is not already held, and released only
  when it is held;
- a walk holds exactly the two locks of `pred` and `curr`;
- a field is written only on a locked node;
- every operation ends holding nothing.

Keys are `int`: `Main` uses `Integer`, whose `compareTo` is integer
comparison.

### Exceptions and defects, modelled as the code behaves

Some paths of the code end differently from a plain "remove is a no-op on
an absent key" contract. The model follows the code:

- **CoarseGrainedList.remove cannot remove the head key.** When
  `head.key == t`, `pred` and `curr` are both `head`, and `pred.next =
  curr.next` is a self-assignment. The model's `CoarseRemove` leaves the
  sequence as it is in that case.
  - `Runs.CoarseRunKeepsHead` shows that the first key never leaves a
    coarse list.
  - So a run that removes every key it added never empties such a list
    (`Runs.CoarseRunNotEmpty`).
- **FineGrainedList.remove throws when no stored key is >= t.** This
  includes the empty list. The walk compares t with the tail sentinel's
  null key, which raises NullPointerException.
  - `Remove` returns `Outcome.NullPointerException` exactly then, and
    changes nothing.
- **Both trees throw on `remove` from an empty tree.** The coarse tree
  dereferences `guard.left.left`; the fine tree locks a null `curr`.
  - `Remove` returns `Outcome.NullPointerException` exactly when the tree
    is empty.
- **Both trees mishandle `remove` of an absent key.** The walk stops at a
  node `curr` whose child on the search side is null, and `goLeft` then
  names that null child's side, not the side on which `curr` hangs from
  `pred`. `removeNode(curr, pred, goLeft)` writes `pred`'s slot on that
  side. It may drop `pred`'s other subtree, unlink a node whose key is
  not t, or change nothing. For example, `remove(7)` on root 5 with
  children 3 and 8 stops at 8 with `goLeft` true and sets `5.left` to
  null, so key 3 is lost and node 8 stays. The trees' `Remove` therefore
  requires the key to be present when the tree is not empty.
- **Keys may repeat.** The lists and trees keep a non-decreasing key
  sequence, not a strictly increasing one:
  - `add` in the coarse list and both trees puts t behind equal keys;
  - `add` in the fine list puts t in front of them.

  The resulting sequence is the same (`SortedSeq.InsertBeforeEqualKeys`).

## Model

| member | source | states |
|---|---|---|
| SortedSeq.Insert | implementation/CoarseGrainedList.java:30-37 | inserting t gives one more element, placed behind every key <= t (at UpperBound) |
| SortedSeq.InsertSpec | implementation/CoarseGrainedList.java:20-42 | `add` grows the key multiset by exactly {t}, keeps a sorted sequence sorted, and puts t at the upper bound |
| SortedSeq.UpperBound | implementation/CoarseGrainedList.java:32-35 | the stopping index of the `t >= key` walk: every key before it is <= t, the key at it is > t |
| SortedSeq.LowerBound | implementation/CoarseGrainedList.java:50-53 | the stopping index of the `t > key` walk: every key before it is < t, the key at it is >= t |
| SortedSeq.UpperBoundAt | implementation/CoarseGrainedList.java:32-35 | any index with keys <= t before it and a key > t at it is the upper bound |
| SortedSeq.LowerBoundAt | implementation/FineGrainedList.java:32-37 | any index with keys < t before it and a key >= t at it is the lower bound |
| SortedSeq.LowerBoundEnd | implementation/FineGrainedList.java:60 | the `t > key` walk runs off the real keys exactly when every key is < t |
| SortedSeq.RemoveOne | implementation/FineGrainedList.java:60-69 | removal changes the length by at most one |
| SortedSeq.RemoveOneSpec | implementation/FineGrainedList.java:60-69 | removal keeps sortedness; an absent t changes nothing; in a sorted sequence a present t loses exactly one occurrence (multiset minus {t}) |
| SortedSeq.InsertBeforeEqualKeys | implementation/FineGrainedList.java:32-41 | on a sorted sequence, inserting at the lower bound equals inserting at the upper bound |
| SortedSeq.InsertAtKeepsOrder | implementation/CoarseGrainedTree.java:31-40 | placing t where the keys before are <= t and the next key is >= t adds exactly one t and keeps a sorted sequence sorted |
| SortedSeq.RemoveAnyOccurrence | implementation/CoarseGrainedTree.java:57-64 | on a sorted sequence, deleting any position that holds t is RemoveOne of t (the tree stops at the first t on its search path, not the first in order) |
| SortedSeq.RemoveBetween | implementation/CoarseGrainedTree.java:74-102 | removing k from a sorted lo + [k] + hi (the promoted or spliced node's key between its in-order neighbours) gives lo + hi, still sorted |
| SortedSeq.InsertBetween | implementation/CoarseGrainedTree.java:36-40 | t placed between keys <= t and keys > t is exactly Insert of t |
| SortedSeq.SortedAround | implementation/CoarseGrainedTree.java:31-40 | a + [k] + b is sorted exactly when a and b are sorted, every key of a is <= k and every key of b is >= k |
| ListNode.Node.constructor | implementation/CoarseGrainedList.java:92-100 | a node holds its key and its next link |
| ListNode.ChainedCons | implementation/CoarseGrainedList.java:28 | a new first node pointing at the old first node extends the chain |
| ListNode.Link | implementation/CoarseGrainedList.java:37 | `pred.next = new Node(t, curr)` inserts the node into the chain at pred's successor position |
| ListNode.Unlink | implementation/CoarseGrainedList.java:57 | `pred.next = curr.next` deletes curr from the chain |
| ListNode.KeysInsert | implementation/CoarseGrainedList.java:37 | inserting a node inserts its key at the same position |
| ListNode.KeysDelete | implementation/CoarseGrainedList.java:57 | deleting a node deletes its key at the same position |
| CoarseGrainedList.CoarseRemove | implementation/CoarseGrainedList.java:44-62 | the effect of remove on the keys: RemoveOne, except that a t held by the first node stays; the first key of a non-empty list is never removed |
| CoarseGrainedList.CoarseRemoveSpec | implementation/CoarseGrainedList.java:49-58 | coarse removal keeps sortedness; it changes nothing for an absent key or a key held by the head; otherwise, in a sorted sequence, it removes exactly one t |
| CoarseGrainedList.HeadKeyStays | implementation/CoarseGrainedList.java:49-57 | an illustration on the one-node list: removing its only key leaves it in place; the general fact is the ensures of `CoarseGrainedList.CoarseRemove` and `Runs.CoarseRunKeepsHead` |
| CoarseGrainedList.CoarseGrainedList.constructor | implementation/CoarseGrainedList.java:15-18 | a new list is empty (`head == null`) |
| CoarseGrainedList.CoarseGrainedList.Add | implementation/CoarseGrainedList.java:20-42 | the list stays a null-terminated chain of fresh or old nodes and its keys become Insert(old keys, t); in the empty and t < head.key cases a fresh node becomes the head in front of the old head, otherwise the head stays |
| CoarseGrainedList.CoarseGrainedList.Remove | implementation/CoarseGrainedList.java:44-62 | the chain stays valid over the same nodes and its keys become CoarseRemove(old keys, t); an empty list is left alone |
| CoarseGrainedList.FindInsertSlot | implementation/CoarseGrainedList.java:30-35 | the `t >= key` walk stops with curr at the upper bound of t and pred the node before it |
| CoarseGrainedList.FindRemoveSlot | implementation/CoarseGrainedList.java:49-53 | the `t > key` walk stops with curr at the lower bound of t (or null) and pred the node before it, or the head itself when the walk does not move |
| CoarseGrainedList.PushFront | implementation/CoarseGrainedList.java:24-29 | a new head node in front of a key > t (or of nothing), the strict test of line 26, extends the chain, and its key sequence is Insert(old keys, t) |
| CoarseGrainedList.InsertAt | implementation/CoarseGrainedList.java:37 | linking behind pred at the upper bound keeps the chain and head, and inserts t as Insert does |
| CoarseGrainedList.DeleteAt | implementation/CoarseGrainedList.java:57 | unlinking the node at the lower bound of its key (not the head) removes that key as RemoveOne does |
| FineGrainedList.FineGrainedList.constructor | implementation/FineGrainedList.java:10-11 | a new list is `head -> tail` with no real node; `head` and `tail` are constants, so no operation replaces a sentinel |
| FineGrainedList.FineGrainedList.Add | implementation/FineGrainedList.java:20-50 | the list stays head -> real nodes -> tail, sorted; its keys become Insert(old keys, t); the returned ghost lock set is empty, so every lock taken is released |
| FineGrainedList.FineGrainedList.Remove | implementation/FineGrainedList.java:52-76 | the outcome is NullPointerException exactly when every key is < t; the keys become RemoveOne(old keys, t), which is unchanged on that path; the shape and sortedness are kept; the returned ghost lock set is empty, so every lock taken is released |
| FineGrainedList.Walk | implementation/FineGrainedList.java:32-37 | the hand-over-hand walk (the same in remove, 60-65) stops at the lower bound of t, with curr the tail exactly when no key is >= t, holding exactly the locks of pred and curr |
| FineGrainedList.LinkNew | implementation/FineGrainedList.java:39-41 | a fresh node linked behind the locked pred in front of curr keeps the sentinel frame and sortedness and inserts t as Insert does |
| FineGrainedList.DeleteAt | implementation/FineGrainedList.java:67-69 | unlinking curr behind the locked pred removes t as RemoveOne does and keeps the frame and sortedness |
| FineGrainedList.InsertedKeys | implementation/FineGrainedList.java:32-41 | placing a node at the lower bound of its key inserts the key as Insert does, and keeps the keys sorted |
| FineGrainedList.FirstReal | implementation/FineGrainedList.java:24-27 | the head's successor is the first real node, and it is the tail exactly when the list is empty |
| FineGrainedList.FrameFacts | implementation/FineGrainedList.java:10-11 | the sentinels are distinct, lie outside the real nodes, and bracket them |
| FineGrainedList.FramedInsert | implementation/FineGrainedList.java:41 | a splice behind the head or a real node is an insertion among the real nodes |
| FineGrainedList.FramedDelete | implementation/FineGrainedList.java:68 | a splice that bypasses a real node is a deletion among the real nodes |
| Locks.HandOverHand | implementation/FineGrainedList.java:33-36 | the set identity behind one coupling step: releasing pred and taking next leaves exactly {curr, next} held; the coupling itself is stated by the `held == {pred, curr}` invariants and ensures of `FineGrainedList.Walk`, `FineGrainedTree.Descend` and `FineGrainedTree.Search` |
| Bst.TNode.constructor | implementation/CoarseGrainedTree.java:146-156 | a tree node holds its key and two children |
| Bst.OrderedIffSorted | implementation/CoarseGrainedTree.java:31-40 | the BST order (left keys <= node key <= right keys) holds exactly when the in-order key sequence is sorted |
| Bst.PutLeafKeys | implementation/CoarseGrainedTree.java:36-40 | attaching a leaf for t at the slot where the search ends inserts t into the in-order keys as Insert does |
| Bst.PutLeafSplit | implementation/CoarseGrainedTree.java:36-40 | an empty slot splits the in-order keys into those before and after it, and a leaf attached there lands exactly between the two |
| Bst.PutRemovedKeys | implementation/CoarseGrainedTree.java:98-102 | replacing the subtree of the removed node by its spliced remainder removes its key from the in-order keys |
| Bst.SpliceRemoved | implementation/CoarseGrainedTree.java:98-102 | putting the remainder of an unlinked node back in its slot leaves a linked, distinct, ordered tree without that node, whose keys lose one occurrence of the node's key, and whose root is unchanged unless the slot was the root's |
| Bst.PutRightmostKeys | implementation/CoarseGrainedTree.java:81-86 | detaching the rightmost node of a subtree removes its key from the end of that subtree's keys |
| CoarseGrainedTree.CoarseGrainedTree.constructor | implementation/CoarseGrainedTree.java:16-20 | a new tree is a guard with no root |
| CoarseGrainedTree.CoarseGrainedTree.Add | implementation/CoarseGrainedTree.java:22-45 | the tree stays a linked BST and its in-order keys become Insert(old keys, t); an empty tree gets a fresh node as root, and a non-empty tree keeps its root |
| CoarseGrainedTree.CoarseGrainedTree.Remove | implementation/CoarseGrainedTree.java:47-68 | the outcome is NullPointerException exactly on an empty tree; otherwise the keys become RemoveOne(old keys, t) and the tree stays a linked BST over a subset of its nodes |
| CoarseGrainedTree.RemoveNode | implementation/CoarseGrainedTree.java:70-103 | the parent slot named by isLeft receives a subtree holding the removed node's left keys followed by its right keys; a node with at most one child is replaced by that child and left untouched; a node with two children is replaced by a node of its left subtree that holds that subtree's largest key and keeps the right subtree; the other slot is unchanged |
| CoarseGrainedTree.PromoteLeft | implementation/CoarseGrainedTree.java:76-79 | the left child, which has no right child, is returned as maxOfLeft and the new subtree is exactly that child with its own left subtree and the removed node's right subtree; the keys are left keys then right keys |
| CoarseGrainedTree.PromoteRightmost | implementation/CoarseGrainedTree.java:80-89 | maxOfLeft is a node of the left subtree holding its largest key; it becomes the new root, keeps the removed node's left child as its left child and its right subtree as its right; the keys are left keys then right keys |
| CoarseGrainedTree.DetachRightmost | implementation/CoarseGrainedTree.java:81-86 | splicing out the rightmost node keeps the subtree linked and removes the last key |
| CoarseGrainedTree.Rightmost | implementation/CoarseGrainedTree.java:81-85 | the walk ends at the rightmost node of the left subtree (no right child, nothing after it in order) and its parent |
| CoarseGrainedTree.FindLeafSlot | implementation/CoarseGrainedTree.java:29-34 | the descent ends at an empty slot whose in-order neighbours are <= t before it and > t after it |
| CoarseGrainedTree.AttachLeaf | implementation/CoarseGrainedTree.java:36-40 | filling that slot with a new leaf keeps a linked BST and inserts t as Insert does |
| CoarseGrainedTree.AddLeaf | implementation/CoarseGrainedTree.java:29-40 | in a non-empty tree the descent and the new leaf keep a linked BST with the same root, add exactly one fresh node and make the keys Insert(old keys, t) |
| CoarseGrainedTree.Search | implementation/CoarseGrainedTree.java:52-62 | for a present key the descent stops at a node holding t, with pred its parent (or the guard) and goLeft the side it hangs on |
| CoarseGrainedTree.Unlink | implementation/CoarseGrainedTree.java:64 | removing the found node through its parent keeps a linked BST and removes t as RemoveOne does |
| CoarseGrainedTree.RemoveFrom | implementation/CoarseGrainedTree.java:52-64 | search and unlink together remove one t from a non-empty tree, keeping guard.left the root |
| FineGrainedTree.FineGrainedTree.constructor | implementation/FineGrainedTree.java:15-19 | a new tree is a guard with no root |
| FineGrainedTree.FineGrainedTree.Add | implementation/FineGrainedTree.java:21-53 | as the coarse tree: a linked BST whose keys become Insert(old keys, t); the returned ghost lock set is empty, so every lock taken is released |
| FineGrainedTree.FineGrainedTree.Remove | implementation/FineGrainedTree.java:55-80 | NullPointerException exactly on an empty tree; otherwise the keys become RemoveOne(old keys, t); the returned ghost lock set is empty, so every lock taken is released |
| FineGrainedTree.AddBelow | implementation/FineGrainedTree.java:29-49 | the locked descent and attach of a non-empty tree insert t as Insert does, keep the root, and return an empty lock set |
| FineGrainedTree.Descend | implementation/FineGrainedTree.java:30-39 | the hand-over-hand descent ends at the empty slot for t holding exactly the locks of pred and curr |
| FineGrainedTree.AttachLeaf | implementation/FineGrainedTree.java:40-45 | the new leaf goes into the locked curr's slot and t is inserted as Insert does |
| FineGrainedTree.Search | implementation/FineGrainedTree.java:60-71 | the hand-over-hand search stops at a node holding t, holding exactly the locks of it and its parent |
| FineGrainedTree.Unlink | implementation/FineGrainedTree.java:73 | with pred and curr locked, removeNode removes t as RemoveOne does |
| FineGrainedTree.RemoveFrom | implementation/FineGrainedTree.java:58-79 | the locked search and unlink remove one t and return an empty lock set |
| FineGrainedTree.RemoveNode | implementation/FineGrainedTree.java:115-160 | as the coarse removeNode (including the largest-key node of the left subtree replacing a node with two children), writing only nodes whose locks are held; the returned lock set equals the set held on entry |
| FineGrainedTree.PromoteLeft | implementation/FineGrainedTree.java:123-126 | the locked left child, which has no right child, is returned as maxOfLeft and the new subtree is exactly that child with its own left subtree and the removed node's right subtree |
| FineGrainedTree.PromoteRightmost | implementation/FineGrainedTree.java:127-143 | maxOfLeft is a node of the left subtree holding its largest key; it becomes the new root over the removed node's left child and right subtree; the lock of maxOfLeft is released and pred's lock is handed back |
| FineGrainedTree.TakeOver | implementation/FineGrainedTree.java:139-140 | maxOfLeft takes toRemove's two children and becomes the linked root of a tree over them |
| FineGrainedTree.DetachRightmost | implementation/FineGrainedTree.java:128-137 | the rightmost node is spliced out under the locks of it and its parent, removing the last key of the left subtree |
| FineGrainedTree.Rightmost | implementation/FineGrainedTree.java:128-136 | the hand-over-hand walk to the rightmost node ends holding exactly its lock and its parent's |
| Workload.ComputeSeed | Main.java:23-30 | computeSeed in 64-bit `long` arithmetic (sign extension, shifts that drop high bits, bitwise or); the result is a `long` |
| Workload.SeedValue | Main.java:23-30 | for 0 <= p1, p3 < 2^16 and 0 <= p2 the seed is p2 * 2^32 + p1 * 2^16 + p3 |
| Workload.ShiftOr | Main.java:25-28 | one shift by 16 followed by an or with a value below 2^16 appends that value, x * 2^16 + b, when x is below 2^48 |
| Workload.SeedUnique | Main.java:22-30 | on that domain different arguments give different seeds |
| Workload.Or64 | Main.java:26 | or-ing two 64-bit patterns gives a 64-bit pattern |
| Workload.OrIntoZeroBits | Main.java:26-28 | or-ing a value below 2^k into a pattern whose k low bits are clear is addition |
| Workload.Swap | Main.java:38-40 | the exchange of positions i and r: same length, position i gets the old entry at r and position r the old entry at i |
| Workload.SwapPermutes | Main.java:38-40 | an exchange keeps the multiset of entries |
| Workload.Shuffle | Main.java:36-41 | the loop's swaps from position i on, each with the drawn position; the length is kept |
| Workload.Permute | Main.java:33-42 | the array becomes the shuffle of its old contents by the draws, a permutation of them |
| Workload.ShufflePermutes | Main.java:36-41 | the swaps keep the length and the multiset of entries |
| Workload.NoDoubles | Main.java:44-54 | a permutation of 0..n-1 has no repeated key and only keys in [0, n) |
| Workload.Range | Main.java:47-50 | the keys 0, 1, ..., n - 1, the array contents the fill loop writes: length n and entry i equal to i |
| Workload.RangeCount | Main.java:47-50 | each of 0..n-1 occurs once in the filled array and nothing else occurs |
| Workload.CreateWorkDataWithoutDoubles | Main.java:46-54 | both arrays are shuffles of 0..n-1 by their own draws, so both are permutations of 0..n-1 |
| Workload.CreateWorkDataWithDoubles | Main.java:58-68 | the keys to add are the drawn values and the keys to remove are a shuffle of them, so the same multiset |
| Workload.CreateWorkData | Main.java:70-76 | in both modes the keys to remove are a permutation of the keys to add; without doubles both are 0..n-1 |
| Workload.Name | Main.java:15-20 | the command-line name of each collection, a three-letter string; `Workload.ParseName` shows parsing inverts it |
| Workload.ParseKind | Main.java:118-133 | a recognised name maps to the collection of that name; any other name is the usage error |
| Workload.ParseName | Main.java:15-20 | each collection is chosen by its own name and by no other |
| Workload.Doubles | Main.java:116-130 | only the lock-free tree runs without repeated keys |
| Workload.CheckArgs | Main.java:157-196 | a command line is accepted exactly when it has 5 or 6 arguments, nrThreads >= 1, nrItems >= 1, nrItems % nrThreads == 0, workTime >= 0, innerWorkTime >= 0 and a sixth argument, if any, is "debug"; "undiv" is reported only after the counts passed |
| Workload.StartIndex | WorkerThread.java:30 | the first index of thread id's slice, nrIterations * id, which is non-negative for non-negative arguments |
| Workload.InSlice | WorkerThread.java:53-60 | index x is visited by thread id's loops, from startIndex up to startIndex + nrIterations; no index is visited when nrIterations < 1 |
| Workload.SlicesInside | WorkerThread.java:30 | with accepted counts each thread's slice [nrIterations * id, nrIterations * id + nrIterations) lies in [0, nrItems), and nrIterations >= 1 |
| Workload.SlicesCover | Main.java:86-88 | every index in [0, nrItems) lies in the slice of thread x / nrIterations, a thread that exists |
| Workload.SlicesDisjoint | WorkerThread.java:53-63 | no index lies in the slices of two threads |
| Workload.SliceGap | WorkerThread.java:30 | a later thread's slice starts no earlier than the end of an earlier thread's slice |
| Runs.AddAll | WorkerThread.java:59-64 | the keys after `add` is called with each key of xs in order; each call adds one key, so the length grows by |xs| |
| Runs.RemoveAll | WorkerThread.java:52-57 | the keys after `remove` of the fine-grained list or of a tree is called with each key of ys in order; each call removes at most one key |
| Runs.CoarseRemoveAll | WorkerThread.java:52-57 | the same run for the coarse-grained list, each call acting as CoarseRemove; each call removes at most one key |
| Runs.AddAllSpec | WorkerThread.java:59-64 | adding keys one by one keeps the keys sorted and adds exactly their multiset |
| Runs.RemoveAllSpec | WorkerThread.java:52-57 | removing keys that are all present, one by one, finds each when its turn comes and removes exactly their multiset |
| Runs.RunEmpties | Main.java:100-104 | when the keys to remove are a permutation of the keys added, the run empties the fine-grained list and both trees, and no removal throws or misses its key |
| Runs.CoarseRunKeepsHead | implementation/CoarseGrainedList.java:49-57 | the first key of a non-empty coarse list survives every removal |
| Runs.CoarseRunNotEmpty | Main.java:100-104 | after at least one add, no sequence of removals empties the coarse list, contrary to the "should be empty" debug message |

## Left out

- Concurrency is not modelled. This covers interleavings of threads,
  `ReentrantLock`, linearizability and deadlock freedom.
  - Each `add`/`remove` is one sequential step.
  - The fine-grained lock discipline appears only as the ghost set `held`.
  - The coarse-grained lock is not represented at all.
  - The unlocked `head == null` test of CoarseGrainedList.remove is a
    plain read.
- `LockFreeList` and `LockFreeTree` are not part of this model. Only their
  names and the `lft` doubles flag appear, in `Workload.Kind` and
  `Workload.Doubles`.
- `doWork` and `innerWorkTime` are left out: they are busy-waits on the
  clock, with no effect on state.
- `toString` of every collection is diagnostic text and is not modelled.
  `Contents()` is the key sequence it would visit.
- WorkerThread's threads, `CyclicBarrier` and busy-waits are not modelled.
  - Only its slice arithmetic is kept (`Workload.SlicesInside`,
    `SlicesCover`, `SlicesDisjoint`).
  - Its add and remove loops, run one thread after another, are kept as
    `Runs`.
- `startThreads`, `performWork` and `main` are not modelled as code.
  - Their I/O (`Integer.parseInt`, printing, `System.exit`, timing) is
    left out.
  - `CheckArgs` takes the already parsed numbers. A `NumberFormatException`
    from parsing is not modelled.
- `java.util.Random` is not modelled.
  - `nextInt(bound)` becomes a parameter sequence `draws` with entries in
    [0, bound).
  - `nextInt()` becomes a parameter sequence `values`.
  - The seeds passed to `new Random(seed)` are therefore not used. This
    includes the `seed + 1` sum, which can wrap for the largest seeds.
- `Sorted.java` is an interface without behaviour. Each class offers
  `Add`/`Remove` directly instead of implementing it.
- Generic `Comparable` keys are replaced by `int`.
- FineGrainedList's sentinel keys are null in the source and are never
  compared except in the NullPointerException path. Here they are 0 and
  never read.
- CoarseGrainedTree.CoarseGrainedTree.Remove: requires t to be present when
  the tree is not empty. For an absent key `removeNode` writes the parent's
  slot on the side of the last node's null child. That can drop the
  parent's other subtree, unlink a node whose key is not t, or change
  nothing. That behaviour is not modelled.
- FineGrainedTree.FineGrainedTree.Remove: the same precondition, for the
  same reason.
- CoarseGrainedTree.CoarseGrainedTree.Remove: states `Repr <= old(Repr)`.
  It does not say that exactly the removed node leaves the footprint.
- FineGrainedTree.FineGrainedTree.Remove: the same footprint statement,
  `Repr <= old(Repr)`.
- CoarseGrainedList.CoarseGrainedList.Add: states `fresh(Repr -
  old(Repr))`. It does not say that exactly one node is allocated (the
  same holds for the other three `Add`s).
- Workload.CreateWorkDataWithoutDoubles: requires two distinct arrays of
  equal length. `startThreads` allocates both with `nrItems` entries
  (Main.java:79-80); a shorter `itemsToRemove` would throw.
- Workload.CreateWorkDataWithDoubles: the same requirement.
- Workload.CreateWorkData: the same requirement.
