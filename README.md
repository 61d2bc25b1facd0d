# LazyList and MarkableReference in Dafny

This project models the core of a small C++ library of lock-free building
blocks. There are three parts:

- **`LazyList`** (lazy_list/lazy_list.hpp) is Harris's non-blocking sorted
  linked list of `uintptr_t` keys between two sentinels: `head` (key 0) and
  `tail` (key `UINTPTR_MAX`).
  - A node is logically deleted by setting bit 0 of its own `next` pointer
    (the *mark*). It is then physically unlinked (*pruned*) by a
    compare-and-swap on the link that leads to it.
  - `search` finds the bracket `left`, `right` around a key. `add` links a new
    node into that bracket. `remove` marks the node and, when the caller asks
    for the removed node, prunes it. `contains` walks the list without
    writing. `print` lists every node with its key and mark.
- **`MarkableReference<T>`**, in two copies. Both keep an 8-aligned pointer
  and a boolean mark in one atomic word, after Java's
  `AtomicMarkableReference`.
  - markable_ref/markable_ref.hpp checks alignment in `set`, and its
    constructor calls `set`.
  - markable_ref.hpp checks alignment only in its constructor. Its `set`
    stores `ref & mark` (see Findings).

The model is split into five modules:

- `TaggedWord` (tagged_word.dfy) holds the 64-bit word and the bit
  operations the source applies to it. This includes the step functions of
  `mark` and `compareAndSet` and the lemmas that decode them.
- `MarkableRef` (markable_ref.dfy) and `RootMarkableRef`
  (root_markable_ref.dfy) model the two copies. Each is a class with one
  mutable `word` field, whose methods are proved against `TaggedWord`.
- `Chain` (chain.dfy) is the abstract state of a list: the sequence of
  nodes from `head` to `tail`, each seen as its key and its mark (a `Cell`).
  Pure functions say what one pass of `search`, `add`, `remove` and `prune`
  does to it. Lemmas prove the list invariant:
  - keys strictly increase;
  - the sentinels stay at the ends;
  - the unmarked keys strictly between the sentinels form the set the list
    represents.

  They also prove that `add` and `remove` change that set exactly as a set
  operation would, and report whether the key was present.
- `LazyList` (lazy_list.dfy) models the list itself.
  - Its `Node` class has a `next` field and a `marked` field for the mark.
  - Its `LazyList` class keeps ghost state that ties the heap to `Chain`: the
    node sequence, its cells, and a `Repr` set of every node the list has
    allocated or linked. An operation may write only the nodes on the
    chain when it starts and the node it allocates.
  - Its methods are proved against the `Chain` functions.
  - Module-level methods replay the threads of tests/lazy_list/main.cpp.

## Model

| member | source | states |
|---|---|---|
| TaggedWord.IsMarked | lazy_list/lazy_list.hpp:42 | `n & 0x1` is set exactly when the word is odd, that is, not twice its half |
| TaggedWord.Aligned | markable_ref/markable_ref.hpp:68 | `value & 0x7` is zero exactly when bits 0, 1 and 2 are all clear |
| TaggedWord.Unmarked | lazy_list/lazy_list.hpp:55-58 | `n & ~1` has bit 0 clear and is the word itself or one below it |
| TaggedWord.WithMark | lazy_list/lazy_list.hpp:60-63 | `n \| b` sets bit 0 to the old bit or `b` and keeps the pointer part |
| TaggedWord.Flip | markable_ref/markable_ref.hpp:50-55 | `value ^ mark` flips bit 0 exactly when `mark` and keeps the pointer part |
| TaggedWord.Mask | markable_ref.hpp:60-64 | `ref & mark` is at most 1, and is 1 exactly when `mark` holds and `ref` is odd |
| TaggedWord.Decode | markable_ref/markable_ref.hpp:50-55 | the pointer `get` returns has bit 0 clear, and packing it again with the returned mark gives the word |
| TaggedWord.PackDecode | markable_ref/markable_ref.hpp:74-75 | a word stored as `ref \| mark` for a pointer with bit 0 clear decodes back to `(ref, mark)` |
| TaggedWord.DecodePack | markable_ref/markable_ref.hpp:50-55 | decoding a word and packing the pair again gives the word back |
| TaggedWord.FlipOwnMarkClears | markable_ref.hpp:66-69 | `w ^ (w & 1)` equals `w & ~1` |
| TaggedWord.AlignedIsUnmarked | markable_ref/markable_ref.hpp:67-72 | an 8-aligned pointer passes the alignment check and leaves bit 0 free for the mark |
| TaggedWord.MarkStep | markable_ref/markable_ref.hpp:32-40 | a failed `mark` leaves the word alone; a successful one keeps the expected pointer and sets bit 0 to the expected pointer's bit or the new mark |
| TaggedWord.CompareAndSetStep | markable_ref/markable_ref.hpp:42-48 | a failed `compareAndSet` leaves the word alone; a successful one found the expected pointer and mark and stores the new pointer and mark |
| TaggedWord.MarkStepMeaning | markable_ref/markable_ref.hpp:32-40 | `mark` succeeds exactly when the stored pointer is the expected one, then only the mark changes; on failure the word is unchanged |
| TaggedWord.CompareAndSetStepMeaning | markable_ref/markable_ref.hpp:42-48 | `compareAndSet` succeeds exactly when the word decodes to the expected pair, then decodes to the new pair; on failure the word is unchanged |
| MarkableRef.MarkableReference.Create | markable_ref/markable_ref.hpp:13-16 | the constructor throws exactly for a pointer that is not 8-aligned; otherwise `get` returns the given pointer and mark |
| MarkableRef.MarkableReference.IsMarked | markable_ref/markable_ref.hpp:30 | `is_marked` is true exactly when clearing bit 0 changes the word |
| MarkableRef.MarkableReference.Reference | markable_ref/markable_ref.hpp:57-60 | `reference` has bit 0 clear, and adding the mark back gives the word |
| MarkableRef.MarkableReference.Get | markable_ref/markable_ref.hpp:50-55 | `get` returns the same pointer as `reference` and the same mark as `is_marked` |
| MarkableRef.MarkableReference.CompareExchange | markable_ref/markable_ref.hpp:39 | `compare_exchange_strong` run alone: succeeds exactly when the word equals `expected`, then stores `desired`; on failure the word is unchanged |
| MarkableRef.MarkableReference.Set | markable_ref/markable_ref.hpp:62-76 | `set` throws exactly for an unaligned pointer and then leaves the word alone; otherwise `get` returns `(ref, mark)` |
| MarkableRef.MarkableReference.Mark | markable_ref/markable_ref.hpp:32-40 | `mark` performs `MarkStep`; for a pointer with bit 0 clear it succeeds exactly when the stored pointer is the expected one, and then `get` returns that pointer with the new mark |
| MarkableRef.MarkableReference.CompareAndSet | markable_ref/markable_ref.hpp:42-48 | `compareAndSet` performs `CompareAndSetStep`; it succeeds exactly when `get` returned the expected pair, and then returns the new pair |
| MarkableRef.SetMarkSwapScenario | tests/markable_ref/main.cpp:9-42 | for any two 8-aligned pointers, the test's `set`, `mark` and two `compareAndSet` calls behave as it expects, so it exits with 0 |
| RootMarkableRef.MarkableReference.Create | markable_ref.hpp:11-28 | the constructor throws exactly for an unaligned pointer; otherwise `get` returns the pointer and the initial mark |
| RootMarkableRef.MarkableReference.Arrow | markable_ref.hpp:66-69 | `operator->` has bit 0 clear, and adding the mark back gives the word |
| RootMarkableRef.MarkableReference.Get | markable_ref.hpp:53-58 | `get` returns the pointer `operator->` returns, plus the mark that together with it makes up the word |
| RootMarkableRef.MarkableReference.CompareExchange | markable_ref.hpp:42 | `compare_exchange_strong` run alone: succeeds exactly when the word equals `expected`, then stores `desired`; on failure the word is unchanged |
| RootMarkableRef.MarkableReference.Mark | markable_ref.hpp:37-43 | as in the other copy: succeeds exactly when the stored pointer is the expected one, then only the mark changes |
| RootMarkableRef.MarkableReference.CompareAndSet | markable_ref.hpp:45-51 | succeeds exactly when the word decodes to the expected pair, then decodes to the new pair; on failure the word is unchanged |
| RootMarkableRef.MarkableReference.Set | markable_ref.hpp:60-64 | as written: the word becomes at most 1, and becomes null and unmarked for every 8-aligned pointer |
| RootMarkableRef.MarkableReference.SetIntended | markable_ref.hpp:60-64 | corrected `set`: `get` returns `(ref, mark)` for a pointer with bit 0 clear |
| RootMarkableRef.SetAsWrittenLosesPointer | markable_ref.hpp:62 | pointer 8 stored with the mark reads back as `(0, false)` as written, and as `(8, true)` when corrected |
| RootMarkableRef.MarkSwapScenario | markable_test.cpp:12-41 | for two 8-aligned objects: building from `(uintptr_t)&tmp + 1` throws, the swap never reports failure, and `operator->` yields tmp, tmp, tmp_other, tmp_other |
| Chain.Empty | lazy_list/lazy_list.hpp:23-28 | the new list, `head` linked straight to `tail`, satisfies the list invariant |
| Chain.RightFrom | lazy_list/lazy_list.hpp:71-87 | continuing the walk from any node with only marked or smaller nodes behind it reaches a node that is the stop node |
| Chain.RightIndex | lazy_list/lazy_list.hpp:71-87 | the walk stops at the first unmarked node whose key is at least `v`, or at `tail` |
| Chain.RightIndexUnique | lazy_list/lazy_list.hpp:71-87 | there is only one such stop node |
| Chain.LastUnmarkedBefore | lazy_list/lazy_list.hpp:76-80 | `left` is the last unmarked node before the stop node; every node between them is marked |
| Chain.LastUnmarkedUnique | lazy_list/lazy_list.hpp:76-80 | there is only one such `left` |
| Chain.Walk | lazy_list/lazy_list.hpp:71-87 | the inner walk ends with `left` unmarked and below `v`, `right` the stop node, and only marked nodes between them |
| Chain.Search | lazy_list/lazy_list.hpp:65-103 | a returned bracket is adjacent, `left` is unmarked, and `right` is the stop node |
| Chain.SearchMeaning | lazy_list/lazy_list.hpp:89-101 | `left` is the last unmarked node below `v` and no later unmarked node is below `v`; `search` spins exactly when `v == 0` or the node before `right` is marked |
| Chain.SearchReturnsWithoutMarks | lazy_list/lazy_list.hpp:89-95 | in a list with no marked node, `search` for a key above 0 always returns |
| Chain.RightHoldsKeyIffLive | lazy_list/lazy_list.hpp:140 | the stop node is a non-tail node holding `v` exactly when `v` is in the set |
| Chain.Contains | lazy_list/lazy_list.hpp:106-130 | `contains` is true exactly when `v` is in the set |
| Chain.InsertAt | lazy_list/lazy_list.hpp:148-149 | splicing in a node puts it at position `k` and shifts the later nodes one place |
| Chain.Unlink | lazy_list/lazy_list.hpp:221 | swinging `left->next` to `right` drops exactly the nodes strictly between them |
| Chain.MarkAt | lazy_list/lazy_list.hpp:177 | marking changes only that node's mark, and a marked inner node keeps the invariant |
| Chain.MarkKeepsWellFormed | lazy_list/lazy_list.hpp:173-181 | marking an inner node keeps the list invariant |
| Chain.MarkRemovesKey | lazy_list/lazy_list.hpp:173-181 | marking an unmarked inner node removes exactly its key from the set |
| Chain.InsertKeepsWellFormed | lazy_list/lazy_list.hpp:148-152 | linking a key between a smaller and a larger neighbour keeps the list invariant |
| Chain.InsertAddsKey | lazy_list/lazy_list.hpp:148-152 | linking an unmarked node adds exactly its key to the set |
| Chain.UnlinkKeepsWellFormed | lazy_list/lazy_list.hpp:218-225 | unlinking a run keeps the list invariant |
| Chain.UnlinkMarkedRun | lazy_list/lazy_list.hpp:218-225 | unlinking a run of marked nodes keeps the invariant and leaves the set unchanged |
| Chain.UnlinkKeepsLive | lazy_list/lazy_list.hpp:218-225 | unlinking only marked nodes loses no key of the set |
| Chain.UnlinkAddsNoLive | lazy_list/lazy_list.hpp:218-225 | unlinking never adds a key to the set |
| Chain.AddSlot | lazy_list/lazy_list.hpp:139-152 | when `search` returns and `right` does not hold `v`, the new node fits between `left` and `right` in key order |
| Chain.Add | lazy_list/lazy_list.hpp:132-155 | `add` never returns exactly when its search spins; false leaves the list as it was; true adds exactly one node, an unmarked one holding `v` |
| Chain.AddCorrect | lazy_list/lazy_list.hpp:132-155 | `add` never returns exactly when its search spins; otherwise it keeps the invariant, returns true exactly when `v` was absent, and the set gains `v` |
| Chain.AddKeepsNoMarks | lazy_list/lazy_list.hpp:132-155 | on a list with no marked node, `add` returns and marks nothing |
| Chain.PruneAfterMark | lazy_list/lazy_list.hpp:184-187 | right after `remove` marks a node, `prune` finds a marked run starting at that node with the same `left` |
| Chain.PruneRun | lazy_list/lazy_list.hpp:193-228 | there is no run to prune exactly when the node before the stop node is unmarked; a run lies strictly between an unmarked node below `v` and the stop node, and every node in it is marked |
| Chain.Prune | lazy_list/lazy_list.hpp:193-228 | `prune` never returns exactly when there is no marked run; when it returns, it returns true and the list is shorter |
| Chain.PruneCorrect | lazy_list/lazy_list.hpp:193-228 | a returning `prune` keeps the list invariant and leaves the set unchanged |
| Chain.Remove | lazy_list/lazy_list.hpp:162-190 | `remove` never returns exactly when its search spins; false leaves the list as it was; true never lengthens the list, and shortens it exactly when pruning was asked for |
| Chain.RemoveCorrect | lazy_list/lazy_list.hpp:162-190 | `remove` never returns exactly when its search spins; otherwise it keeps the invariant, returns true exactly when `v` was present, and the set loses `v`, pruned or not |
| Chain.RemovePrunedKeepsNoMarks | lazy_list/lazy_list.hpp:184-187 | a pruning `remove` on a list with no marked node returns and leaves no marked node |
| Chain.UnprunedRemoveBlocksSearch | lazy_list/lazy_list.hpp:157-161 | after a non-pruning `remove` of `v`, every later `search` for a key between `left` and `v` spins |
| Chain.ListedCells | lazy_list/lazy_list.hpp:231-245 | with no marks, the nodes `print` lists are sorted and hold exactly the set |
| Chain.SortedDeterminedByKeys | lazy_list/lazy_list.hpp:231-245 | two sorted, unmarked listings with the same keys are equal |
| Chain.ListingDeterminedByKeys | lazy_list/lazy_list.hpp:231-245 | with no marks, `print` lists the keys of the set in increasing order |
| LazyList.Node.constructor | lazy_list/lazy_list.hpp:13 | a new node has the key, no successor and no mark |
| LazyList.Node.CompareAndSwapNext | lazy_list/lazy_list.hpp:149 | `__sync_val_compare_and_swap` returns the old link and writes the new one only when the old one was expected |
| LazyList.LazyList.constructor | lazy_list/lazy_list.hpp:23-28 | a new list is `head` linked to `tail`, holding the empty set |
| LazyList.LazyList.Destroy | lazy_list/lazy_list.hpp:30-39 | the destructor deletes every node from `head` to `tail`, in order |
| LazyList.LazyList.Print | lazy_list/lazy_list.hpp:231-245 | `print` yields one line per node strictly between the sentinels, with its key and mark |
| LazyList.LazyList.Walk | lazy_list/lazy_list.hpp:71-87 | the heap walk returns the nodes at the positions `Chain.Walk` names |
| LazyList.LazyList.Search | lazy_list/lazy_list.hpp:65-103 | `search` returns the `left` and `right` nodes of `Chain.Search`'s bracket, or never returns when that spins |
| LazyList.LazyList.Contains | lazy_list/lazy_list.hpp:106-130 | `contains` is true exactly when `v` is in the set, and then hands back an unmarked node holding `v` |
| LazyList.LazyList.Add | lazy_list/lazy_list.hpp:132-155 | `add` performs `Chain.Add`: same result and chain, the new node spliced in at `right`'s place; only the new node and nodes linked at the start are written |
| LazyList.LazyList.AddNode | lazy_list/lazy_list.hpp:137-155 | one pass of the retry loop with the allocated node does the same, writing only that node and nodes linked at the start |
| LazyList.LazyList.SwapInNode | lazy_list/lazy_list.hpp:148-152 | the CAS on `left->next` succeeds and splices the node in between `left` and `right` |
| LazyList.LazyList.Prune | lazy_list/lazy_list.hpp:193-228 | `prune` unlinks the marked run `Chain.PruneRun` names, or never returns without one; the pruned node is marked and no longer linked; only nodes linked at the start are written |
| LazyList.LazyList.SwapOutRun | lazy_list/lazy_list.hpp:218-225 | the CAS on `left->next` succeeds and drops the marked run |
| LazyList.LazyList.MarkLink | lazy_list/lazy_list.hpp:173-181 | the CAS on `right->next` succeeds and marks exactly `right` |
| LazyList.LazyList.Remove | lazy_list/lazy_list.hpp:162-190 | `remove` performs `Chain.Remove`; a node is handed back exactly when pruning was asked for and succeeded; it is the marked stop node, now unlinked, and the chain loses exactly the run `Chain.PruneRun` names, which starts at it; without pruning or on false the chain is unchanged; only nodes linked at the start are written |
| LazyList.AddKey | lazy_list/lazy_list.hpp:132-155 | on a list with no marks, `add` returns whether the key was absent, and the set gains it |
| LazyList.RemoveKey | lazy_list/lazy_list.hpp:162-190 | on a list with no marks, a pruning `remove` returns whether the key was present, the set loses it, and no mark is left |
| LazyList.AddRemoveScenario | lazy_list/lazy_list.hpp:106-190 | `remove` on a new list is false; `add` twice is true then false; a pruning `remove` is true; `contains` is then false |
| LazyList.InsertEach | tests/lazy_list/main.cpp:19-30 | an inserting thread adds every key of its array to the set and leaves the rest |
| LazyList.RemoveEach | tests/lazy_list/main.cpp:32-44 | a removing thread takes exactly its keys out of the set and leaves no mark |
| LazyList.InsertersFirstScenario | tests/lazy_list/main.cpp:46-76 | with the inserting threads scheduled first, the final `print` lists nothing |
| LazyList.RemoversFirstScenario | tests/lazy_list/main.cpp:46-76 | with the removing threads scheduled first, the final `print` lists keys 1 to 13 in order, unmarked |
| LazyList.EverythingRemoved | tests/lazy_list/main.cpp:46-59 | the removing threads take out every key the inserting threads add |
| LazyList.OpsKeys | tests/lazy_list/main.cpp:46-49 | the four `ops` arrays together hold keys 1 to 13 |
| LazyList.OneToThirteenAdded | tests/lazy_list/main.cpp:46-59 | removing from an empty list and then adding the four arrays leaves keys 1 to 13 |
| LazyList.ListsOneToThirteen | tests/lazy_list/main.cpp:76 | a list without marks holding keys 1 to 13 prints them in increasing order |

## Left out

- Concurrency and memory ordering. Each operation is modelled as run by one
  thread at a time, which is how tests/lazy_list/main.cpp schedules its
  threads (every thread holds one mutex for its whole loop). Under this
  model every compare-and-swap sees the value just read, so it succeeds.
  Linearizability, lock-freedom, and interleavings of concurrent threads are
  not modelled.
- Retry loops. `search`, `add`, `remove` and `prune` each retry inside
  `while(true)`. Run alone, a second pass sees the same list, so one pass is
  modelled. A pass that would retry forever ends in `Hangs` or
  `NeverReturns`.
- `remove` tests the word `__sync_val_compare_and_swap` returns for being
  non-null, not for being equal to `right_next`. A failed CAS would
  therefore still report success. This only shows under concurrency: run
  alone, the CAS always succeeds and the returned word is the non-null
  `right_next`.
- Pointer tagging in the list. The tagged `next` pointer of a node is a
  `next` field plus a `marked` flag. The tag helpers `is_marked`,
  `clear_mark`, `set_mark`, `get_unmarked` and `get_marked` are modelled as
  the word operations in `TaggedWord`. `clear_mark` and `set_mark` compute the
  same words as `get_unmarked` and `get_marked`.
- Memory reclamation.
  - `delete` is not modelled. `Destroy` returns the nodes it would delete.
    `add`'s `delete node` on a duplicate drops the unlinked node.
  - The owning destructor of markable_ref/markable_ref.hpp:18-21 is not
    modelled, because the pointed-to objects are not.
  - Nodes unlinked by `prune` are not freed, as in the source.
- Output. `print` returns its lines as cells instead of calling `printf`, and
  node addresses are not printed. The "a done"/"r done" lines of the test
  are not modelled.
- LazyList.LazyList.Add: requires `v < UINTPTR_MAX`. `add(UINTPTR_MAX)` would
  link a second node with the tail's key, breaking the strict key order the
  rest of the model relies on.
- LazyList.LazyList.Prune: requires `v > 0`. For `v == 0` the walk never sets
  `left`, and the source then dereferences a null pointer.
- LazyList.InsertEach: requires keys strictly between the sentinels, as
  every `ops` array of the test has.
- LazyList.InsertersFirstScenario: one schedule out of the many the mutex
  allows; the other orders of threads are not covered.
- LazyList.RemoversFirstScenario: likewise one schedule.
- The result of `prune` is returned through `Completion`, and the pruned node
  through `pruned`/`removed`. The `Node**` out-parameters are not modelled as
  pointers.
- MarkableRef.MarkableReference.Reference also stands for `operator->` and
  `operator*`. They compute the same address, and the object behind it is not
  modelled.
- `std::atomic::compare_exchange_strong` rewrites its `expected` argument on
  failure. Neither copy uses that value afterwards, so it is not modelled.
- spinlock.hpp and bench.cpp are not part of this model.

## Findings

| source | as written | input that shows it | evidently intended | confidence | as-written member | corrected member |
|---|---|---|---|---|---|---|
| markable_ref.hpp:62 | `set` stores `ref & mark`, keeping at most bit 0 of the pointer | `set(ref = 8, mark = true)` stores 0, so `get` returns `(null, false)` | store `ref \| mark`, as the constructor of this copy and `set` of markable_ref/markable_ref.hpp do | not executed | RootMarkableRef.MarkableReference.Set (shown by RootMarkableRef.SetAsWrittenLosesPointer) | RootMarkableRef.MarkableReference.SetIntended |
