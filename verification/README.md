# BusTub storage core in Dafny

A model of three components of the BusTub teaching database's storage engine, with proofs
about the model:

- **The B+Tree leaf page** (`BPlusTreeLeafPage`, in `leaf_page.dfy`). A leaf is a fixed
  slot area of (key, record locator) pairs, plus a header holding the size, the maximum
  size, the page id, the parent id and the next-sibling page id. Keys are compared by a
  three-way comparator given as a parameter. `KeyOrder` (`key_order.dfy`) says when such a
  comparator is a total preorder. The model covers:
  - initialisation;
  - the sibling link;
  - slot access;
  - binary search (`KeyIndex`);
  - exact lookup;
  - insertion, both as written and corrected (see Findings);
  - the bulk copy;
  - the split (`MoveHalfTo`).

  A run of linked sibling leaves (`Linked`, `ChainItems`) states what the split does to the
  leaf level of a tree.
- **The LRU replacer** (`LruReplacer`, in `lru_replacer.dfy`). It holds the list of
  evictable frames, most recently unpinned first, and the index of listed frames. The
  operations are `Victim`, `Pin`, `Unpin` and `Size`, with the replacer's invariant.
  `LruReference` (`lru_reference.dfy`) is an independent description of least-recently-
  unpinned replacement. It stamps every evictable frame with the time it became evictable.
  The lemmas prove that every replacer operation simulates the matching reference
  operation, and that `Victim` picks the frame with the oldest stamp.
- **The parallel buffer pool manager** (`ParallelBufferPoolManager`, in
  `parallel_pool.dfy`). It holds a sequence of buffer pool instances. The model covers:
  - construction;
  - the pool-size sum;
  - routing of a page id to its owning instance;
  - forwarding of fetch, unpin, flush and delete to that instance;
  - round-robin allocation of new pages.

  An instance's internals are abstract: its state is a type parameter, and its answer to a
  request is an oracle function passed in by the caller.

`Config` (`config.dfy`) holds the shared ids, the invalid-page sentinel and `Option`.
`Option` stands for an out-parameter written only on success, or for a pointer result that
may be null.

Some behaviours of the code that a reader might not expect, and that the model keeps:
- Leaf insertion's shift loop starts one slot too low. The model keeps that as `Insert` and
  adds `InsertCorrected` (see Findings).
- Routing converts the page id to `size_t` before taking the remainder, so a negative id
  (such as the invalid-page sentinel) wraps around and is routed like any other id. This
  takes `num_instances_` to be a `size_t`, like the constructor parameter it is initialised
  from (src/buffer/parallel_buffer_pool_manager.cpp:18-20) and the loop index at line 25;
  its declaration is in the class header, which is not part of this model.
- The pool-size sum is a `size_t` sum, so it wraps modulo 2^64.
- `MoveHalfTo` copies into the recipient's first slots and sets its size, whatever the
  recipient held before. The model states what happens to the recipient's other slots.
- New-page allocation moves the cursor only past the instance that answered, so it can come
  back to where it started. The model keeps that as `NewPgImp` and adds `NewPgImpRotating`
  (see Findings).

## Model

| member | source | states |
|---|---|---|
| `BPlusTreeLeafPage.Init` | src/storage/page/b_plus_tree_leaf_page.cpp:30-37 | an initialised page is a valid leaf with no entries and the sentinel as sibling; page id, parent id and max size are the arguments; the slot area is untouched |
| `BPlusTreeLeafPage.InitPageIsEmpty` | src/storage/page/b_plus_tree_leaf_page.cpp:30-37 | on an initialised page every search stops at 0 and every lookup misses |
| `BPlusTreeLeafPage.GetNextPageId` | src/storage/page/b_plus_tree_leaf_page.cpp:43 | the result is the page's sibling link |
| `BPlusTreeLeafPage.SetNextPageId` | src/storage/page/b_plus_tree_leaf_page.cpp:46 | the sibling link becomes the argument and nothing else in the page changes |
| `BPlusTreeLeafPage.NextPageIdRoundTrip` | src/storage/page/b_plus_tree_leaf_page.cpp:43-46 | reading the link after setting it gives the value set; setting it to the value read changes nothing |
| `BPlusTreeLeafPage.KeyAt` | src/storage/page/b_plus_tree_leaf_page.cpp:77-79 | within the size, the key at an index is that entry's key; any slot of the area may be read |
| `BPlusTreeLeafPage.GetItem` | src/storage/page/b_plus_tree_leaf_page.cpp:86-89 | for an index below the size (the source's assertion), the result is the entry at that index of the page's entries, and its key is the one `KeyAt` gives |
| `BPlusTreeLeafPage.KeyIndex` | src/storage/page/b_plus_tree_leaf_page.cpp:53-70 | the search terminates at an index in `[0, size]` whose left neighbour is less than the key and whose own entry is not; on a sorted page under a total order this is the lower bound |
| `BPlusTreeLeafPage.SeparationIsLowerBound` | src/storage/page/b_plus_tree_leaf_page.cpp:49-69 | on sorted keys, the only place where the left neighbour is less and the entry is not less is the first entry not less than the key |
| `BPlusTreeLeafPage.Lookup` | src/storage/page/b_plus_tree_leaf_page.cpp:173-187 | a hit exactly when the search stops inside the page on an equal key, whose value is returned; a hit is a real entry with an equal key; on a sorted page the result is the first-match scan |
| `BPlusTreeLeafPage.FindAtLowerBound` | src/storage/page/b_plus_tree_leaf_page.cpp:174-186 | on sorted keys, the first-match scan finds a key exactly when the lower-bound entry compares equal, and returns that entry's value |
| `BPlusTreeLeafPage.ShiftRight` | src/storage/page/b_plus_tree_leaf_page.cpp:103-106 | the shift loop moves every slot of the range one place right, from the top down, and leaves all slots outside the range alone |
| `BPlusTreeLeafPage.Insert` | src/storage/page/b_plus_tree_leaf_page.cpp:99-117 | as written: the size grows by one and is returned; the header is unchanged; the pair sits where the search stopped, and the slots are exactly `ShiftedAsWritten`: when the pair lands before the end, the entries from the insertion point to `size-2` move one place right, the entry at `size-1` is overwritten and slot `size` keeps its stale content; otherwise the pair is written into slot `size` |
| `BPlusTreeLeafPage.InsertAsWrittenAppends` | src/storage/page/b_plus_tree_leaf_page.cpp:101-116 | when the key exceeds every key, the as-written insertion appends the pair and the page stays sorted |
| `BPlusTreeLeafPage.InsertAsWrittenLosesLast` | src/storage/page/b_plus_tree_leaf_page.cpp:103-106 | when the pair does not land at the end, slot `size` does not already hold a copy of the last entry, and the pair is not that entry, the old last entry is missing afterwards and the entries are not the old ones plus the pair |
| `BPlusTreeLeafPage.InsertAsWrittenWithCopyAtEnd` | src/storage/page/b_plus_tree_leaf_page.cpp:103-106 | when slot `size` already holds a copy of the last entry and the pair does not land at the end, the as-written shift gives exactly the corrected splice, so the loss needs a stale slot that differs |
| `BPlusTreeLeafPage.InsertAsWrittenExample` | src/storage/page/b_plus_tree_leaf_page.cpp:101-113 | keys 1 and 3 with a stale 9 in the free slot: inserting 2 gives keys 1, 2, 9, so key 3 is no longer found; the corrected splice gives 1, 2, 3 |
| `BPlusTreeLeafPage.InsertCorrected` | src/storage/page/b_plus_tree_leaf_page.cpp:99-117 | corrected: the entries become the old ones with the pair spliced in where the search stopped (the lower bound on a sorted page); one more copy of the pair; free slots past the new size untouched; a sorted page without the key stays sorted |
| `BPlusTreeLeafPage.SpliceIn` | src/storage/page/b_plus_tree_leaf_page.cpp:102-113 | shifting from the first free slot and writing the pair splices it into the entries at the given index, header unchanged |
| `BPlusTreeLeafPage.InsertAtLowerBoundSorted` | src/storage/page/b_plus_tree_leaf_page.cpp:99-117 | splicing an absent key in at its lower bound keeps strictly ascending keys |
| `BPlusTreeLeafPage.FindAfterInsertAt` | src/storage/page/b_plus_tree_leaf_page.cpp:99-117 | after splicing in an absent key, the scan finds that key with its value, and every other key's lookup is unchanged |
| `BPlusTreeLeafPage.CopyNFrom` | src/storage/page/b_plus_tree_leaf_page.cpp:157-162 | slots `[0, n)` become the first `n` items in order; size, header and later slots are unchanged; a non-positive count copies nothing |
| `BPlusTreeLeafPage.MoveHalfTo` | src/storage/page/b_plus_tree_leaf_page.cpp:126-151 | this page keeps `size/2` entries and the recipient gets the rest (as many or one more); the two parts concatenated are the original entries; the recipient links to the old sibling and this page to the recipient; ids and the recipient's other slots are unchanged |
| `BPlusTreeLeafPage.SplitHalvesOrdered` | src/storage/page/b_plus_tree_leaf_page.cpp:138-146 | when the original entries were sorted, both halves are sorted and every left key is below every right key |
| `BPlusTreeLeafPage.SplitKeepsChain` | src/storage/page/b_plus_tree_leaf_page.cpp:145-150 | replacing a leaf of a linked run by the two halves of its split keeps the run linked and its entries, in order |
| `LruReplacer.Create` | src/buffer/lru_replacer.cpp:17-22 | a new replacer is valid, tracks nothing and has the given bound |
| `LruReplacer.Victim` | src/buffer/lru_replacer.cpp:26-37 | an empty replacer fails and is unchanged; otherwise the back of the list is returned and removed from list and index, and the invariant is kept |
| `LruReplacer.Pin` | src/buffer/lru_replacer.cpp:39-48 | an untracked frame is ignored; a tracked one leaves the list and the index, the size drops by one, and the invariant is kept |
| `LruReplacer.Unpin` | src/buffer/lru_replacer.cpp:50-67 | a tracked frame is ignored (no recency refresh); a full replacer ignores the call; otherwise the frame is prepended and indexed; the size never exceeds the bound |
| `LruReplacer.Size` | src/buffer/lru_replacer.cpp:69-72 | on a valid replacer the list length equals the number of indexed frames and is within the bound |
| `LruReplacer.WithoutDistinct` | src/buffer/lru_replacer.cpp:46-47 | erasing a frame from a repetition-free list removes exactly that frame, keeps the list repetition-free, and changes nothing when the frame is absent |
| `LruReference.RefinesValid` | src/buffer/lru_replacer.cpp:69-72 | a replacer that represents a reference state satisfies the invariant, and its size is the number of evictable frames |
| `LruReference.CreateRefines` | src/buffer/lru_replacer.cpp:17-22 | a new replacer represents the empty reference state |
| `LruReference.UnpinRefines` | src/buffer/lru_replacer.cpp:50-67 | `Unpin` on the replacer simulates stamping the frame with the current time (unless already stamped or full) |
| `LruReference.PinRefines` | src/buffer/lru_replacer.cpp:39-48 | `Pin` on the replacer simulates removing the frame's stamp |
| `LruReference.VictimRefines` | src/buffer/lru_replacer.cpp:26-37 | `Victim` fails exactly when nothing is evictable; otherwise it returns the frame with the oldest stamp and simulates removing it |
| `LruReference.BackIsLeastRecent` | src/buffer/lru_replacer.cpp:32-33 | the back of a newest-first list of all evictable frames is the one unpinned longest ago |
| `LruReference.WithoutNewestFirst` | src/buffer/lru_replacer.cpp:46 | erasing a frame keeps the remaining frames in newest-first order |
| `LruReference.LruExample` | src/buffer/lru_replacer.cpp:26-67 | Unpin 1, 2, 3 then Pin 2 leaves frames 3 and 1; the victims are 1, then 3, then none |
| `ParallelBufferPoolManager.Create` | src/buffer/parallel_buffer_pool_manager.cpp:18-29 | exactly `num_instances` instances; instance `i` gets index `i`, the instance count and the pool size; the cursor starts at 0 |
| `ParallelBufferPoolManager.GetPoolSize` | src/buffer/parallel_buffer_pool_manager.cpp:34-41 | the `size_t` sum of the instances' pool sizes (each taken as the size the instance was built with), which on a valid manager is instance count times pool size, modulo 2^64 |
| `ParallelBufferPoolManager.AsSizeT` | src/buffer/parallel_buffer_pool_manager.cpp:45 | converting a page id to `size_t` keeps a non-negative id and adds 2^64 to a negative one |
| `ParallelBufferPoolManager.GetBufferPoolManager` | src/buffer/parallel_buffer_pool_manager.cpp:43-47 | the owner is an existing instance whose index is congruent to the page id (as `size_t`) modulo the instance count |
| `ParallelBufferPoolManager.RoutesToCongruentInstance` | src/buffer/parallel_buffer_pool_manager.cpp:43-47 | conversely, any instance whose index is congruent to the page id is the owner, so the owner is unique |
| `ParallelBufferPoolManager.CongruentIdsRouteHome` | src/buffer/parallel_buffer_pool_manager.cpp:43-47 | every page id congruent to `i` modulo the instance count, `i + t*n`, routes to instance `i` |
| `ParallelBufferPoolManager.Forward` | src/buffer/parallel_buffer_pool_manager.cpp:49-66 | a request goes to the owner of its page id alone: only that instance's state changes, the cursor is unchanged, and its answer is returned verbatim |
| `ParallelBufferPoolManager.FetchPgImp` | src/buffer/parallel_buffer_pool_manager.cpp:49-54 | the fetch is served by the owner alone with the caller's page id, and its page is returned verbatim |
| `ParallelBufferPoolManager.UnpinPgImp` | src/buffer/parallel_buffer_pool_manager.cpp:56-60 | the unpin, with the caller's page id and dirty flag, is served by the owner alone and its answer returned verbatim |
| `ParallelBufferPoolManager.FlushPgImp` | src/buffer/parallel_buffer_pool_manager.cpp:62-66 | the flush is served by the owner alone and its answer returned verbatim |
| `ParallelBufferPoolManager.DeletePgImp` | src/buffer/parallel_buffer_pool_manager.cpp:92-96 | the delete is served by the owner alone and its answer returned verbatim |
| `ParallelBufferPoolManager.FirstSuccess` | src/buffer/parallel_buffer_pool_manager.cpp:75-86 | the first attempt in cyclic order at which an instance provides a page; every earlier attempt fails |
| `ParallelBufferPoolManager.NewPgImp` | src/buffer/parallel_buffer_pool_manager.cpp:68-90 | a page exactly when some instance provides one, and then the first one's page in cyclic order from the cursor; at most one request per instance; the cursor ends one past the provider, or where it started when all fail; only the asked instances change |
| `ParallelBufferPoolManager.AllocationStep` | src/buffer/parallel_buffer_pool_manager.cpp:76-85 | each turn asks an instance not asked yet, advances the cursor by one modulo the count, and is back at the start exactly after `n` turns |
| `ParallelBufferPoolManager.AllocationExit` | src/buffer/parallel_buffer_pool_manager.cpp:80-89 | leaving the loop on a success or after `n` failures establishes the allocation's outcome, cursor and frame conditions |
| `ParallelBufferPoolManager.SlotsDistinct` | src/buffer/parallel_buffer_pool_manager.cpp:76-86 | the first `n` cursor positions from any start are pairwise distinct |
| `ParallelBufferPoolManager.SlotReturns` | src/buffer/parallel_buffer_pool_manager.cpp:83-85 | the cursor returns to its start after `t` steps (`0 < t <= n`) exactly when `t = n` |
| `ParallelBufferPoolManager.CursorStaysAsWritten` | src/buffer/parallel_buffer_pool_manager.cpp:73-85 | as written, the cursor ends where the call started exactly when the last instance tried is the first to allocate or none does, so the next call starts at the same instance, against the comment's promise of a different one each call |
| `ParallelBufferPoolManager.CursorStaysExample` | src/buffer/parallel_buffer_pool_manager.cpp:73-85 | two instances, cursor at 0, instance 0 full: the call allocates at instance 1 and the cursor stays at 0; bumping once per call would give 1 |
| `ParallelBufferPoolManager.NewPgImpRotating` | src/buffer/parallel_buffer_pool_manager.cpp:68-90 | corrected: the same attempts, outcome and instance updates as `NewPgImp`, and the cursor moves one instance on per call, so with two or more instances the next call starts elsewhere |

## Left out

- ParallelBufferPoolManager.GetPoolSize: an instance's pool size is taken to be the `pool_size` it was constructed with; the instance's own `GetPoolSize` belongs to the buffer pool instance, which is not part of this model.
- Locking: the replacer's latch is not modelled; every operation is atomic.
- Buffer pool instances: their frames, page table, free list, replacer, disk manager and log manager are not part of this model. An instance is an abstract state, and its answers to fetch, unpin, flush, delete and new-page requests are oracle parameters.
- The page id that the new-page call writes through its out-parameter is part of the instance's oracle answer, not a separate output.
- `FlushAllPgsImp` (src/buffer/parallel_buffer_pool_manager.cpp:98-100) has an empty body in the source, so there is nothing to model.
- The leaf page's `RemoveAndDeleteRecord`, `MoveAllTo`, `MoveFirstToEndOf`, `CopyLastFrom`, `MoveLastToFrontOf` and `CopyFirstFrom` (src/storage/page/b_plus_tree_leaf_page.cpp:199-236) are empty or return 0 in the source, so no behaviour is modelled for them.
- Concrete keys: the fixed-width byte keys and their comparator instantiations are replaced by an arbitrary key type and a comparator parameter. Sortedness results assume the comparator is a total preorder (`KeyOrder.IsTotalPreorder`).
- Memory layout: the in-page byte layout, pointer arithmetic, and the recipient aliasing the same buffer are not modelled. A page is a record whose slot area is a sequence, so `MoveHalfTo` returns both updated pages.
- 32-bit `int` arithmetic in the leaf page (sizes, indices, `mid`): unbounded integers are used. With sizes bounded by a page's slot count, the source's expressions cannot overflow.
- Destructors and `unique_ptr` ownership are not modelled.
- LruReplacer.Pin: drops every occurrence of the frame from the list, where the source erases the one position its index records. The two agree on every replacer satisfying the invariant (`LruReplacer.WithoutDistinct`), and the contract speaks only of such replacers.

## Findings

| source | as written | input that shows it | evidently intended | confidence | as-written member | corrected member |
|---|---|---|---|---|---|---|
| src/storage/page/b_plus_tree_leaf_page.cpp:103 | the shift loop starts at `GetSize() - 1`, so slot `size-1` is overwritten before it is moved and slot `size` keeps stale content | a leaf holding keys 1, 3 (with a stale 9 in the next slot); inserting key 2 leaves keys 1, 2, 9, and key 3 is lost | start the loop at `GetSize()`, so every entry from the insertion point moves one place right and the entries become the old ones with the pair spliced in | not executed | `BPlusTreeLeafPage.InsertAsWrittenLosesLast` | `BPlusTreeLeafPage.InsertCorrected` |
| src/buffer/parallel_buffer_pool_manager.cpp:79-85 | the cursor is advanced only past each instance tried and the loop stops at the first success, so after a success at the last instance tried, or after a full round of failures, it is back at `start_pos` | two instances, cursor at 0, instance 0 full and instance 1 with a free frame: the call allocates at instance 1 and leaves the cursor at 0, so the next call starts at instance 0 again | bump the starting index once per call, as the comment at lines 73-74 says, so consecutive calls start at different instances | not executed | `ParallelBufferPoolManager.CursorStaysAsWritten` | `ParallelBufferPoolManager.NewPgImpRotating` |
