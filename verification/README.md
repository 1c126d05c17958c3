# Verification of the hard core of a freestanding C and C++ runtime

This project models the parts of the repository whose correctness is hardest to see from the code, and proves that they
do what their comments, their names or their standards promise. Paths below are relative to the root of the repository.

- **Red-black tree** (`mini_libcxx/include/rbtree.hpp`, with `map.hpp` on top). `RbSpec` states the functional
  specification of the header comment and the loops of the code as functions on trees; `RbTheory` and `RbLoops` prove what
  these functions keep and how code and specification are related; `RbHeap`, `RbRebalance` and `RbPointer` are the pointer
  code on nodes with parents and left-child flags, each method proved to leave exactly the tree of its function; `RbMap` is
  the ordered map, `RbRun` proves what whole runs compute, `RbCopy` at copy assignment with reuse of nodes.
- **Cross-thread free queue** (`src/memory/malloc.c`). `FreeSet` is a state machine over the single accesses to shared
  memory of any number of freeing threads and one owner.
- **Allocator stack** (`src/memory/*.c`). `BuddyChunk` and `BuddyTheory` are one chunk, `Buddy` the arena with its lists;
  `SmallBlock` and `SmallClass` are the small-class layer on top of it; `Malloc` holds size classes, metadata words and
  alignment shifts; `Heap` puts malloc and free on all three layers.
- **Sorting** (`src/crypto/sort/sort.c`). `MergeExchange`.
- **Hash map** (`mini_libcxx/include/hashmap.hpp`). `HashProbe`, `HashGroup`, `HashTable`, `HashMap`.
- **String routines** (`src/string`). `Words`, `Memory` (memcpy, memmove), `Strings` (strcmp, strncmp), `StringCopy`
  (strncpy).
- **Sponge** (`include/crypto/hash/keccak/keccak_p.h`). `Sponge`; `SpongePadding` compares its bytewise padding with the
  standard's, which is defined on bits.
- **Counted and linked references** (`mini_libcxx/include/tagged_ptr.hpp`). `TaggedPtr`.

`Arith`, `Lists` and `Options` hold what several modules need. Run `dafny verify dfyconfig.toml` in this directory.

## Where the code and what it promises differ

The models follow the code. In these places that is not what the comments say.

- The loop of `remove_node` (`mini_libcxx/include/rbtree.hpp:1025-1046`) has no exit at the root, though the specification
  goes on "until we reach root": when the last round still asks for another one, a null parent is dereferenced.
  `RbTree.Remove` models the intended exit and returns whether the code would have dereferenced null;
  `RemovedEscapesIff` says exactly when, and `EscapingRun` is a short run that gets there.
- The specification blackens a red root in cases where the code stops earlier and leaves it red. `AttachedIsSpec` says that
  this is the only difference for insertions, `AttachedIsSpecIff` exactly when there is none, told from the tree before the
  call; `RemovedIsSpec` says that removals differ only for a root whose only child is its right one, where the code leaves
  that child as it is.
- `clear_table` (`mini_libcxx/include/hashmap.hpp:116-126`) resets the tombstone counter but not the tombstone bytes.
  `HashMap.Clear` models this and says exactly when the table stays usable; `DriftOverflows` shows that every other table can
  be filled until an insertion finds no slot, and `ClearOverflows` is a run from an empty table that gets there.
- The comment above `clear_free_set_of_arena` (`src/memory/malloc.c:383-388`) says that each iteration leaves the loop or
  frees a region. `NoProgressIff` says exactly which iterations do neither, and `NoProgressReached` is a run with both kinds
  of them; `DrainBounded` bounds the iterations all the same.
- The overlap test of memmove is right only while twice the length fits into a word, as its comment assumes;
  `OverlapTestIsDisjoint` states the test for all lengths.
- `sponge_keccak_1600_finalize` (`include/crypto/hash/keccak/keccak_p.h:64-75`) takes the domain bits and the first bit of
  the padding in one byte. `PaddedIsPad` says that the result is the standard's padding, except when seven domain bits meet
  a block with one byte left; the final bytes of the SHA-3 functions and of SHAKE carry two and four (`FinalBytes`).

## Model

| member | source | states |
|---|---|---|
| `MergeExchange.SafeSort` | src/crypto/sort/sort.c:19-46 | for every length 1 < len <= 2^63, power of two or not, and either word width, the array ends up ascending and is a permutation of what it was |
| `MergeExchange.Phase` | src/crypto/sort/sort.c:22-45 | phase i turns an array sorted at stride 2p into one sorted at stride p, p = 2^(len_log2 - i), by a permutation |
| `MergeExchange.FirstPass` | src/crypto/sort/sort.c:26-33 | the loop over u leaves exactly the array in which every index of an even block was compared with the index p further on |
| `MergeExchange.NextPass` | src/crypto/sort/sort.c:35-44 | the loop over u for distance index t leaves exactly the array in which every index of an odd block was compared with the index 2^(len_log2 - t) - p further on |
| `MergeExchange.FirstPassMerging` | src/crypto/sort/sort.c:26-33 | the first pass turns an array sorted at stride 2p into two interleaved ascending runs whose neighbours are in order one way round |
| `MergeExchange.NextPassMerging` | src/crypto/sort/sort.c:35-44 | each further pass keeps the runs ascending and shrinks the distance over which the other neighbours are in order from 2q - p to q - p |
| `MergeExchange.SpreadBits` | src/crypto/sort/sort.c:27-27 | the two masks, the shift and the or on the bits of u give the u-th index of an even block |
| `MergeExchange.SpreadByDivision` | src/crypto/sort/sort.c:27-27 | that index is u mod p plus twice the multiple of p below u |
| `MergeExchange.SpreadNext` | src/crypto/sort/sort.c:26-33 | consecutive values of u visit consecutive indices of the blocks of one parity, skipping the blocks of the other |
| `MergeExchange.CompareExchange` | src/crypto/sort/sort.c:30-32 | the smaller word goes to the lower index and the larger to the higher; the multiset of words is kept |
| `MergeExchange.WrappedMax` | src/crypto/sort/sort.c:30-31 | for all words x and y, the wrapped sum minus the minimum, wrapped again, is the maximum |
| `MergeExchange.LengthFits` | src/crypto/sort/sort.c:20-20 | len_log2 lies between 1 and 63 and 2^len_log2 is at least len |
| `RbTheory.InsertLeftStep` | mini_libcxx/include/rbtree.hpp:13-105 | rb_insert_rebalance_left maps trees related by rb_insert_rel to a valid tree related to the old one by rb_insert_rel |
| `RbTheory.InsertRightStep` | mini_libcxx/include/rbtree.hpp:107-192 | the same for rb_insert_rebalance_right |
| `RbTheory.InsertLeftOrder` | mini_libcxx/include/rbtree.hpp:25-105 | rb_insert_rebalance_left keeps the in-order sequence |
| `RbTheory.InsertRightOrder` | mini_libcxx/include/rbtree.hpp:107-192 | rb_insert_rebalance_right keeps the in-order sequence |
| `RbTheory.DeleteLeftStep` | mini_libcxx/include/rbtree.hpp:194-280 | rb_delete_rebalance_left maps a subtree that lost one black level, or none, to a valid tree that lost one, or none, as its boolean says |
| `RbTheory.DeleteRightStep` | mini_libcxx/include/rbtree.hpp:282-368 | the same for rb_delete_rebalance_right |
| `RbTheory.DeleteLeftOrder` | mini_libcxx/include/rbtree.hpp:194-280 | rb_delete_rebalance_left keeps the in-order sequence wherever it is defined |
| `RbTheory.DeleteRightOrder` | mini_libcxx/include/rbtree.hpp:282-368 | rb_delete_rebalance_right keeps the in-order sequence wherever it is defined |
| `RbLoops.InsertUpCorrect` | mini_libcxx/include/rbtree.hpp:398-404 | rebalancing every ancestor up to the root, as specified, gives a valid tree with the order kept |
| `RbLoops.InsertLoopStepLeft` | mini_libcxx/include/rbtree.hpp:601-624 | every iteration from a left child meets the pruned assumptions, and where the code stops early the whole tree is valid |
| `RbLoops.InsertLoopStepRight` | mini_libcxx/include/rbtree.hpp:601-624 | the same from a right child |
| `RbLoops.InsertLoopCorrect` | mini_libcxx/include/rbtree.hpp:918-943 | the early-stopping loop ends with a valid tree in the same order |
| `RbLoops.AttachedCorrect` | mini_libcxx/include/rbtree.hpp:1146-1168 | for every valid tree and every free child position, the insertion gives a valid tree with the new element exactly at that position in order |
| `RbLoops.AttachedIsSpec` | mini_libcxx/include/rbtree.hpp:398-404 | the code and the unpruned specification give the same tree up to the colour of the root, for every valid tree and every position |
| `RbLoops.AttachedIsSpecIff` | mini_libcxx/include/rbtree.hpp:398-404 | for every valid tree and every position the two trees are the same exactly if the root was black, or red nodes and black nodes with two red children alternate from the position up to the root |
| `RbLoops.SpecBlackensRoot` | mini_libcxx/include/rbtree.hpp:398-404 | a tree on which they differ: the code leaves a red root, the specification a black one |
| `RbLoops.DeleteUpCorrect` | mini_libcxx/include/rbtree.hpp:406-409 | rebalancing every ancestor after a removal, as specified, gives a valid tree, one black level lower or not as the boolean says |
| `RbLoops.DeficitLoopIsSpec` | mini_libcxx/include/rbtree.hpp:1025-1046 | the early-stopping deficit loop gives exactly the tree and the boolean of the unpruned specification |
| `RbLoops.RemovedIsSpec` | mini_libcxx/include/rbtree.hpp:370-409 | for every node of every valid tree the code gives exactly the specified tree, except that a root with only a right child is not blackened |
| `RbLoops.RemovedCorrect` | mini_libcxx/include/rbtree.hpp:945-1047 | removing any node from any valid tree gives a valid tree whose in-order sequence lacks exactly that element |
| `RbLoops.LoopEscapesIff` | mini_libcxx/include/rbtree.hpp:1025-1046 | the loop runs past the root exactly when every node on the way up, its sibling and the sibling's children are black |
| `RbLoops.RemovedEscapesIff` | mini_libcxx/include/rbtree.hpp:945-1047 | the same for a whole removal, told from the tree before the call |
| `RbLoops.HeightBound` | mini_libcxx/include/rbtree.hpp:5-11 | a valid tree of n nodes has black height at most log2(n + 1) and height at most twice that plus one |
| `RbRebalance.DoInsertRebalanceLeft` | mini_libcxx/include/rbtree.hpp:625-675 | under the pruned assumptions the pointer code leaves exactly the tree of rb_insert_rebalance_left, over the same nodes, and returns its boolean and the stopping condition |
| `RbRebalance.DoInsertRebalanceRight` | mini_libcxx/include/rbtree.hpp:677-721 | the same for the right |
| `RbRebalance.DoDeleteRebalanceLeft` | mini_libcxx/include/rbtree.hpp:736-826 | under the pruned assumptions the pointer code leaves exactly the tree of rb_delete_rebalance_left; when it asks for another round no link of any node has changed |
| `RbRebalance.DoDeleteRebalanceRight` | mini_libcxx/include/rbtree.hpp:828-916 | the same for the right |
| `RbPointer.RbTree.InsertRebalance` | mini_libcxx/include/rbtree.hpp:918-943 | the pointer loop leaves exactly the tree of the loop on values, with all links, left-child flags and colours consistent |
| `RbPointer.RbTree.EmplaceRoot` | mini_libcxx/include/rbtree.hpp:1138-1144 | an empty tree becomes one black node; a tree with a root is refused |
| `RbPointer.RbTree.EmplaceLeft` | mini_libcxx/include/rbtree.hpp:1146-1156 | the new node stands immediately before the given one in order, in a valid tree; a node with a left child is refused |
| `RbPointer.RbTree.EmplaceRight` | mini_libcxx/include/rbtree.hpp:1158-1168 | the new node stands immediately after the given one in order, in a valid tree; a node with a right child is refused |
| `RbPointer.RbTree.DeficitFix` | mini_libcxx/include/rbtree.hpp:1025-1046 | the loop ends with exactly the tree of the loop on values; at most one of its iterations changes a link, and none does if the loop runs past the root |
| `RbPointer.RbTree.RemoveNode` | mini_libcxx/include/rbtree.hpp:945-1047 | the pointer code leaves exactly the tree of the removal on values, for each of the four shapes of the removed node |
| `RbPointer.RbTree.Remove` | mini_libcxx/include/rbtree.hpp:945-1047 | any node of any valid tree can be removed: the tree stays valid, the in-order sequence loses exactly that node, and the parent pointer that becomes null is dereferenced exactly in the case above |
| `RbMap.Map.Search` | mini_libcxx/include/map.hpp:275-289 | finds the node iff the key is present, within 2 * log2(n + 1) + 1 steps |
| `RbMap.Map.Emplace` | mini_libcxx/include/map.hpp:317-356 | a present key is returned and nothing changes; an absent one is inserted in ascending order and size grows by one |
| `RbMap.Map.RemoveKey` | mini_libcxx/include/map.hpp:427-435 | removes exactly the node with the key, if any, and size follows; the null parent is dereferenced exactly in the case told for RbTree.Remove |
| `RbMap.Map.Min` | mini_libcxx/include/map.hpp:208-216 | the first node in order, or null |
| `RbMap.Map.Max` | mini_libcxx/include/map.hpp:218-226 | the last node in order, or null |
| `RbMap.Map.Next` | mini_libcxx/include/map.hpp:228-248 | the node that follows in order, or null at the end |
| `RbMap.Map.Prev` | mini_libcxx/include/map.hpp:250-271 | the node that precedes in order, or null at the start |
| `RbMap.Map.Traverse` | mini_libcxx/include/map.hpp:208-248 | from min, next visits every node once, in ascending order of keys |
| `RbMap.Map.TraverseBack` | mini_libcxx/include/map.hpp:218-271 | from max, prev visits every node once, in descending order of keys |
| `RbMap.DepthBound` | mini_libcxx/include/map.hpp:275-289 | a descent of s steps needs at least 2^(s/2) - 1 nodes |
| `RbRun.RunKeepsOk` | mini_libcxx/include/rbtree.hpp:918-1047 | every sequence of insertions and removals keeps the tree valid, whatever the order of its keys |
| `RbRun.StepIs` | mini_libcxx/include/map.hpp:317-435 | one insertion or removal by key on an ordered tree does to its keys exactly what it does to a set, leaves the tree as it is when there is nothing to do, and returns exactly if its loop does not run past the root |
| `RbRun.RunIs` | mini_libcxx/include/map.hpp:317-435 | over every run the keys ascend in order and are the set that the operations describe; a run that ends early has removed the right key too, and ended in a removal whose loop runs past the root |
| `RbRun.LastDecides` | mini_libcxx/include/map.hpp:317-435 | a key is in that set exactly if the last operation on it is an insertion, or there is none and it was there before |
| `RbRun.RunReturnsIff` | mini_libcxx/include/rbtree.hpp:1025-1046 | a run returns exactly if no operation of it escapes from the tree that it finds |
| `RbRun.DescendThrough` | mini_libcxx/include/map.hpp:275-289 | in an ordered tree the comparisons lead to the subtree that holds the key, wherever that is |
| `RbRun.EscapingRun` | mini_libcxx/include/rbtree.hpp:1025-1046 | inserting 20, 10, 40, 30, 50, 35 and removing 35, 10, 20, 30 ends in a removal whose loop runs past the root |
| `RbCopy.CopyAssign` | mini_libcxx/include/rbtree.hpp:1288-1408 | copy assignment gives the data, shape and colours of the source; each old node is reused or destroyed exactly once, in the order of taking leaves, and fresh nodes come only after all old ones; all loops end |
| `RbCopy.Detach` | mini_libcxx/include/rbtree.hpp:1260-1286 | after a leaf is detached, find_leaf finds the next leaf of the old tree |
| `RbCopy.Climb` | mini_libcxx/include/rbtree.hpp:1373-1400 | the climb ends at the next right sibling that is not copied yet, or at the root with the copy complete |
| `RbCopy.ClearSubtree` | mini_libcxx/include/rbtree.hpp:1049-1079 | every node of the subtree is destroyed once, after its children |
| `RbCopy.TakeNode` | mini_libcxx/include/rbtree.hpp:1326-1341 | a cell for the copy is the next old leaf while there is one, and a fresh node afterwards |
| `FreeSet.InitInv` | src/memory/malloc.c:87-94 | the invariant holds with the placeholder alone in the queue |
| `FreeSet.StepInv` | src/memory/malloc.c:362-440 | every step of every thread keeps the invariant of the queue, its links, the threads inside an insertion and the owner |
| `FreeSet.RunInv` | src/memory/malloc.c:362-440 | so every run of any number of threads, interleaved in any way, keeps it |
| `FreeSet.RunFreesInOrder` | src/memory/malloc.c:362-440 | at every point of every run the regions swapped in are, in swap order, those already freed followed by those still queued; a queued element occurs once; and the placeholder is queued whenever the owner is idle |
| `FreeSet.StepConserves` | src/memory/malloc.c:362-440 | no step loses a region or makes one up: it is with a caller, with the underlying allocator, with a thread that is freeing it, or queued |
| `FreeSet.RunConserves` | src/memory/malloc.c:362-440 | the same over every run |
| `FreeSet.ForeignWordsKept` | src/memory/malloc.c:362-381 | no step of the protocol writes to a region that belongs to a caller or was handed to the underlying free, except the thread that frees it |
| `FreeSet.WriteLinksSuccessor` | src/memory/malloc.c:379-381 | the link write of an enqueuer goes to a queued element whose word is NULL and links it to its successor |
| `FreeSet.ThirdExit` | src/memory/malloc.c:418-428 | when the owner sees NULL at an element other than the placeholder while the placeholder is queued, another thread stands between its swap and its write to that very word |
| `FreeSet.FirstExit` | src/memory/malloc.c:419-427 | whenever the placeholder is at the head the owner knows that it is queued |
| `FreeSet.DrainBounded` | src/memory/malloc.c:383-388 | under every interleaving the owner decides at most 4r + 3 times in one drain, r being the regions not with the underlying allocator |
| `FreeSet.NoProgressIff` | src/memory/malloc.c:383-388 | an iteration neither leaves the loop nor frees a region exactly when it pops the placeholder, or when it inserts the placeholder behind a queue without one |
| `FreeSet.NoProgressReached` | src/memory/malloc.c:383-388 | both happen in a drain after one region was allocated and freed by another thread |
| `FreeSet.Arena.InsertIntoFreeSet` | src/memory/malloc.c:362-381 | with nobody else in flight, a region in the hands of a caller or the placeholder goes to the end of the queue; the queue is otherwise as it was and stays valid, and nothing is freed |
| `FreeSet.Arena.ClearFreeSet` | src/memory/malloc.c:389-440 | with no enqueuer in flight the drain ends, frees exactly the queued regions in queue order and leaves the placeholder alone in the queue |
| `BuddyChunk.TakenInv` | src/memory/buddy.c:456-466 | giving out a free block adds exactly that block to the live ones |
| `BuddyChunk.PutInv` | src/memory/buddy.c:698-703 | setting a bit whose buddy is not free takes back exactly that block and keeps "no two free buddies" |
| `BuddyChunk.CutInv` | src/memory/buddy.c:484-492 | splitting a block turns it into its live lower and free upper half |
| `BuddyChunk.JoinedInv` | src/memory/buddy.c:683-695 | merging with the free buddy keeps the invariant |
| `BuddyChunk.JoinedLive` | src/memory/buddy.c:683-695 | merging turns the freed block and its buddy into one live block of the next order |
| `BuddyChunk.FreshChunkInv` | src/memory/buddy.c:178-178 | a new chunk has one live and one free block of order 6 |
| `BuddyTheory.PagesOfBlock` | src/memory/buddy.c:15-17 | block i of order k is the 2^k pages from i * 2^k on |
| `BuddyTheory.BlockInChunk` | src/memory/buddy.c:15-17 | every block lies in the 128 pages of its chunk |
| `BuddyTheory.PageHasOneBlock` | src/memory/buddy.c:7-17 | every page lies in exactly one block that is free or live |
| `BuddyTheory.LiveDisjoint` | src/memory/buddy.c:7-17 | two live blocks that share a page are one block |
| `BuddyTheory.BlocksOfOrder` | src/memory/buddy.c:24-38 | the blocks of an order that are free, split or live are two for each split block of the next order |
| `BuddyTheory.PagesConserved` | src/memory/buddy.c:24-38 | the pages counted by avail_num and the live pages together are 128 |
| `BuddyTheory.PagesAreCounted` | src/memory/buddy.c:24-38 | those two weighted sums are the numbers of pages below 128 that lie in a free block and in a live block |
| `BuddyTheory.SplitHasLive` | src/memory/buddy.c:535-547 | below every split block there is a live one |
| `BuddyTheory.LiveDetermines` | src/memory/buddy.c:24-38 | two chunks with the same live blocks have the same bitmaps, split bits and counters, whatever their history |
| `BuddyTheory.WalkListsLive` | scripts/gdb_heap_inspect.py:222-253 | the recursive walk from a block lists each live block under it exactly once |
| `BuddyTheory.WalkIsLive` | scripts/gdb_heap_inspect.py:222-256 | the walk from the two blocks of order 6 lists each live block of the chunk exactly once |
| `Buddy.BlockIdxInside` | src/memory/buddy.c:51-52 | any address inside a block leads back to its index |
| `Buddy.LowerHalfAddress` | src/memory/buddy.c:482-482 | a block and its lower half start at the same address |
| `Buddy.TopBuddyFree` | src/memory/buddy.c:511-513 | when an order 6 block is freed next to a free buddy nothing else in the chunk is live and no lower order has a free block |
| `Buddy.OnlyLiveBuddy` | src/memory/buddy.c:683-686 | the buddy of the only live block of a chunk is free |
| `Buddy.ReleaseStep` | src/memory/buddy.c:512-520 | releasing a chunk keeps the arena invariant, and the chunk is in no list of an order below 6 |
| `Buddy.NewStep` | src/memory/buddy.c:168-189 | a new chunk keeps the arena invariant, in particular that no fully free chunk exists beyond the limit |
| `Buddy.NoneFreeIff` | src/memory/buddy.c:450-481 | the search of the lists from order k on fails exactly if no chunk has a free block of order k or more |
| `Buddy.FreeUndoesAlloc` | src/memory/buddy.c:450-504 | freeing what was just allocated from an existing chunk restores every bitmap, split bit and counter |
| `Buddy.ArenaPagesConserved` | src/memory/buddy.c:450-705 | free pages plus live pages are 128 times chunk_num |
| `Buddy.BuddyArena.Alloc` | src/memory/buddy.c:195-504 | the block was not live, becomes live, and nothing else changes; it comes from the lowest free block of the first chunk of the first list from the requested order on that is not empty; a chunk is mapped only if all those lists are empty; failure changes nothing |
| `Buddy.BuddyArena.Free` | src/memory/buddy.c:506-705 | from any address inside a live block, exactly that block is taken back; the chunk is released exactly when nothing else in it is live and chunk_num exceeds the limit |
| `Buddy.BuddyArena.TrailingZeros` | src/memory/buddy.c:457-457 | the lowest set bit |
| `SmallBlock.SlotIdxInside` | src/memory/small_class.c:22-23 | any address inside a slot leads back to its index |
| `SmallBlock.SlotInBlock` | src/memory/small_class.c:19-22 | a slot lies behind the header, inside the block, at a multiple of 16 |
| `SmallBlock.SlotsAreMost` | src/memory/small_class.c:58-58 | for every class no further slot fits behind the last one, so a block has as many slots as it can |
| `SmallBlock.FillBitmap` | src/memory/small_class.c:58-61 | each bitmap word of a new block is full, partly full, or left as it was |
| `SmallBlock.FilledInv` | src/memory/small_class.c:56-61 | of those words exactly the bits of the slots are set among the words that are read |
| `SmallBlock.FindSlot` | src/memory/small_class.c:87-91 | the search over the words finds the lowest free slot |
| `SmallBlock.FullCount` | src/memory/small_class.c:127-127 | avail_num equals the number of slots exactly when no slot is in use |
| `SmallClass.PutCount` | src/memory/small_class.c:122-130 | when a free makes avail_num reach the number of slots, the freed slot was the only live one and the block is in its list |
| `SmallClass.ListEmptyIff` | src/memory/small_class.c:69-80 | the list of a class is empty exactly if every slot of every block of the class is in use |
| `SmallClass.SmallArena.AllocateClassBlock` | src/memory/small_class.c:31-62 | nothing changes exactly when no block of 16 pages can be had; otherwise a new block of the class, with all of its slots free, makes up the list |
| `SmallClass.SmallArena.SmallAlloc` | src/memory/small_class.c:65-106 | exactly one slot that was not in use is handed out, of the first block in the list of the class, at its address; NULL exactly when the list is empty, no order from 4 on has a free block and no chunk can be mapped, and then nothing changes |
| `SmallClass.SmallArena.SmallFree` | src/memory/small_class.c:109-143 | from any address inside a live slot, exactly that slot is taken back; its block is returned exactly when it is fully free and another block of the class has a free slot, so at most one fully free block per class is kept |
| `SmallClass.SlotsApart` | src/memory/small_class.c:19-23 | two slots of any blocks that share a byte are one slot, and no slot overlaps a block header |
| `Malloc.ClassIsLeast` | src/memory/malloc.c:9-17 | get_class gives the smallest class of the three layers that is large enough, for every size |
| `Malloc.ClassOfRequest` | src/memory/malloc.c:96-102 | a request of the three functions is refused exactly if it asks for no bytes, for more than TASK_SIZE, for an alignment of 2^47 or more, or no class up to TASK_SIZE holds it with its metadata, header and alignment; otherwise its class is the least one that does |
| `Malloc.CodeRoundTrip` | src/memory/malloc.c:104-143 | for every class an alloc function finds a layer, and the code it stores takes free to the same layer with the same size or order |
| `Malloc.MetadataRoundTrip` | src/memory/malloc.c:138-152 | the packed words give back arena, context, code and tag, with or without the free mark |
| `Malloc.AlignedShift` | src/memory/malloc.c:200-215 | the shift of an aligned allocation makes the region aligned and leaves room for the metadata |
| `Malloc.TaggedShift` | src/memory/malloc.c:283-306 | the same for a tagged allocation, where the subtraction may wrap |
| `Malloc.RegionFits` | src/memory/malloc.c:96-329 | for every request of the three functions the region, its metadata and its header lie inside the class block, the alignment is met, and the debug mark does not touch the metadata |
| `Heap.TargetIsOwner` | src/memory/malloc.c:331-360 | the metadata that malloc writes take free from any address inside to the same slot, block or mapping |
| `Heap.OwnersApart` | src/memory/malloc.c:96-360 | no address belongs to two of the slots, blocks and mappings handed out |
| `Heap.RegionsApart` | src/memory/malloc.c:96-360 | the regions of two pointers in use share no address |
| `Heap.NewPointer` | src/memory/malloc.c:96-156 | a pointer that is about to be returned is not in use |
| `Heap.MallocArena.Allocate` | src/memory/malloc.c:96-329 | each of the three functions returns NULL exactly if the request is refused, or nothing is left for the least class that holds it: no slot of the class in any block and no 16 pages, no free block of the order or above and no chunk, or no mapping; otherwise it hands out exactly one slot, block or mapping that was not handed out before, of that class, with the region placed in it as requested; NULL changes nothing |
| `Heap.MallocArena.Free` | src/memory/malloc.c:331-360 | free, given only the address and the stored metadata, gives back exactly what the region owns |
| `Heap.MallocArena.AllocateClass` | src/memory/malloc.c:106-136 | the layer of the class is called and what it hands out is of that class; there is nothing exactly if that layer is exhausted, told from its blocks before the call |
| `HashProbe.ProbeInjective` | mini_libcxx/include/hashmap.hpp:129-183 | no group is probed twice in 2^k probes |
| `HashProbe.ProbeCovers` | mini_libcxx/include/hashmap.hpp:129-183 | 2^k probes visit each of the 2^k groups |
| `HashProbe.ProbeIsTriangle` | mini_libcxx/include/hashmap.hpp:175-178 | probe p is the start plus the p-th triangle number modulo 2^k |
| `HashTable.FindSlot` | mini_libcxx/include/hashmap.hpp:129-183 | finds the slot that holds the key, and nothing only if no slot holds it |
| `HashTable.FindInsertSlot` | mini_libcxx/include/hashmap.hpp:186-254 | finds the slot of a present key, or else the first slot on its path that is not full; nothing only if every slot is full |
| `HashTable.PathEnds` | mini_libcxx/include/hashmap.hpp:171-179 | a key that is not in the groups up to the first with an empty slot is not in the table |
| `HashTable.InsertedInv` | mini_libcxx/include/hashmap.hpp:606-615 | inserting into that slot adds exactly the pair and keeps every other key findable |
| `HashTable.ErasedInv` | mini_libcxx/include/hashmap.hpp:684-688 | a tombstone removes exactly the key and keeps every other key findable |
| `HashTable.VacatedInv` | mini_libcxx/include/hashmap.hpp:458-460 | moving a pair out removes exactly its key from the old table |
| `HashGroup.ZerosFindsZero` | mini_libcxx/include/hashmap.hpp:167-170 | the word test is nonzero iff one of the eight bytes is zero |
| `HashGroup.MatchesAreFull` | mini_libcxx/include/hashmap.hpp:153-165 | every byte equal to the target is in the match mask, and every byte in it is the target or differs from it in the lowest bit, so that it belongs to a full slot |
| `HashGroup.AvailableBits` | mini_libcxx/include/hashmap.hpp:232-237 | the mask of available slots has exactly the bytes without top bit |
| `HashMap.MoveStep` | mini_libcxx/include/hashmap.hpp:445-463 | one move keeps both tables valid, no key in both, and the pairs of the two tables together the same |
| `HashMap.HashMap.Search` | mini_libcxx/include/hashmap.hpp:492-504 | finds the handle of a key iff the key is present, during a rehash as well |
| `HashMap.HashMap.StepRehash` | mini_libcxx/include/hashmap.hpp:441-469 | a step loses and duplicates nothing; with more than n pairs left in the old table exactly n are moved, otherwise all of them are and the new table takes over |
| `HashMap.HashMap.Destination` | mini_libcxx/include/hashmap.hpp:449-450 | a slot exists whenever a pair is moved |
| `HashMap.HashMap.FinalizeRehash` | mini_libcxx/include/hashmap.hpp:271-299 | whenever it is called the old table is empty, so its loop does nothing, and the new table takes over within its load limit |
| `HashMap.HashMap.StartRehash` | mini_libcxx/include/hashmap.hpp:256-269 | the new table, which is empty, has half the slots if it had more than eight and at most a quarter were full, as many if at most half were, and twice as many otherwise |
| `HashMap.HashMap.EnsureCapacity` | mini_libcxx/include/hashmap.hpp:301-316 | exactly a table of which one more pair would take over 7/8 goes over to another one; a new map gets eight slots; afterwards a slot is left for the insertion, and the branch that would cut a rehash short is never taken |
| `HashMap.HashMap.Emplace` | mini_libcxx/include/hashmap.hpp:598-616 | the finite map gains the pair, or keeps its value and gives the old handle if the key is present; handles of other keys stay; the capacity afterwards, and whether a rehash is running, are told from the numbers before the call |
| `HashMap.HashMap.Remove` | mini_libcxx/include/hashmap.hpp:677-707 | the finite map loses exactly the key; handles of other keys stay; the capacity is halved exactly if no rehash is left running and the remaining pairs are at most a quarter of more than eight slots, and the new rehash is left running exactly if they are more than four |
| `HashMap.PairCount` | mini_libcxx/include/hashmap.hpp:342-348 | the sizes of the tables add up to the number of keys in the map, during a rehash as well |
| `HashMap.HashMap.CheckShrink` | mini_libcxx/include/hashmap.hpp:342-348 | exactly a table with more than eight slots of which at most a quarter are full goes over to one of half its size, at once if it holds at most four pairs; no pair is lost |
| `HashMap.HashMap.Clear` | mini_libcxx/include/hashmap.hpp:583-592 | the map is empty, but the table is usable afterwards exactly when eight times its tombstone bytes are fewer than its slots plus eight |
| `HashMap.ClearedCalm` | mini_libcxx/include/hashmap.hpp:116-126 | the same for one table |
| `HashMap.DriftOverflows` | mini_libcxx/include/hashmap.hpp:116-126 | otherwise insertions that all pass the load test fill the table, and the next one passes it too and finds no slot |
| `HashMap.FillsUp` | mini_libcxx/include/hashmap.hpp:598-616 | in a new table of eight slots each of six keys passes the load test and goes to the first available slot of its path, for every hash |
| `HashMap.Empties` | mini_libcxx/include/hashmap.hpp:677-707 | each of them is found there when it is removed, and leaves a counted tombstone |
| `HashMap.ClearOverflows` | mini_libcxx/include/hashmap.hpp:116-126 | clearing that table lets insertions that all pass the load test fill it, until the next one passes it too and finds no slot, for every hash |
| `Memory.Memcpy` | src/string/memcpy.c:10-70 | the destination gets the source bytes for every alignment and length and nothing else changes, for disjoint regions and for a destination below the source |
| `Memory.Memmove` | src/string/memmove.c:10-135 | the destination gets the old source bytes for every overlap, alignment and length, at all addresses, and nothing else changes; only a length of more than half the address space must not be moved upwards |
| `Memory.OverlapTestIsDisjoint` | src/string/memmove.c:18-28 | the unsigned test holds exactly when the regions are disjoint, or twice the length exceeds 2^64 |
| `Memory.ReadWord` | include/string_internal.h:8-45 | every word that is read is aligned and holds at least one byte of the source |
| `Memory.MergeWords` | src/string/memcpy.c:48-58 | the shift-and-merge loop writes the source bytes, with the rest of the last word kept in the buffer |
| `Memory.MergeWordsDown` | src/string/memmove.c:113-124 | the same downwards |
| `Memory.CopyUp` | src/string/memmove.c:30-77 | the upward branch copies every byte before it is overwritten |
| `Memory.CopyDown` | src/string/memmove.c:79-133 | the downward branch copies every byte before it is overwritten |
| `Words.MergeIs` | src/string/memcpy.c:52-52 | a word or-ed with a shifted one holds the remaining bytes of the first and then those of the second |
| `Words.MergeHighIs` | src/string/memmove.c:118-118 | the same from the top |
| `Strings.Strcmp` | src/string/strcmp.c:13-96 | for all alignments and contents of two terminated strings the result is the difference of the first bytes that differ, or zero, and no word behind the end of a string is read |
| `Strings.Strncmp` | src/string/strncmp.c:10-157 | the same among the first n bytes, with no word behind the limit read, on every exit |
| `Strings.ResultUnique` | src/string/strncmp.c:10-157 | there is only one such result |
| `Strings.CompareMerged` | src/string/strcmp.c:63-79 | the unaligned loop of strcmp |
| `Strings.CompareMergedN` | src/string/strncmp.c:79-94 | the unaligned loop of strncmp |
| `Strings.LastBytes` | src/string/strncmp.c:96-133 | fewer than eight bytes left: the first way out of that loop |
| `Strings.EndInWordN` | src/string/strncmp.c:135-153 | a terminator in the word: the second way out |
| `StringCopy.StrncpyInternal` | src/string/strncpy.c:9-101 | copies the bytes of the string up to its terminator or n, returns their number, and changes nothing else |
| `StringCopy.Strncpy` | src/string/strncpy.c:103-107 | the destination gets the bytes of the string, every further byte up to n is zero, and no other byte changes |
| `StringCopy.CopyMerged` | src/string/strncpy.c:66-87 | the unaligned loop and its tail |
| `StringCopy.EndInBuffers` | src/string/strncpy.c:89-100 | the way out when the word holds a zero byte, which may lie behind the limit |
| `Sponge.Keccak.Absorb` | include/crypto/hash/keccak/keccak_p.h:40-62 | absorbing by blocks gives the state and offset of the recursive definition, for every way in which the data meet the blocks |
| `Sponge.XorInBits` | include/crypto/hash/keccak/keccak_p.h:31-33 | each bit of the bytes in the range is the exclusive or of the old one and that of the data; the other bytes stay |
| `Sponge.XorInUndone` | include/crypto/hash/keccak/keccak_p.h:31-33 | xoring the same bytes in twice changes nothing, and on the zero state they appear |
| `Sponge.Keccak.Finalize` | include/crypto/hash/keccak/keccak_p.h:64-75 | both branches xor in exactly the padding that completes the block, and permute |
| `Sponge.Keccak.Squeeze` | include/crypto/hash/keccak/keccak_p.h:77-104 | gives the next bytes of the output stream and leaves the state to go on from |
| `Sponge.AbsorbSplit` | include/crypto/hash/keccak/keccak_p.h:40-62 | absorbing in two pieces is absorbing the whole |
| `Sponge.AbsorbIsSponge` | include/crypto/hash/keccak/keccak_p.h:40-75 | absorbing and finalizing is the absorbing phase of SPONGE, section 4 of FIPS 202, on the padded message |
| `SpongePadding.PaddedIsPad` | include/crypto/hash/keccak/keccak_p.h:64-75 | the bits of the padded message are those of the message, the domain bits and pad10*1, section 5.1 of FIPS 202, exactly unless seven domain bits meet a block with one byte left |
| `SpongePadding.TailIsPad` | include/crypto/hash/keccak/keccak_p.h:64-75 | the bytes that finalize adds to a block are the domain bits, a one, zeros and a one |
| `Sponge.SqueezeSplit` | include/crypto/hash/keccak/keccak_p.h:77-104 | squeezing in two pieces is squeezing the whole |
| `Sponge.Hash` | include/crypto/hash/keccak/keccak_p.h:40-104 | a message absorbed in any pieces and squeezed in any pieces gives the bytes of SPONGE for the whole message |
| `TaggedPtr.References.CopyCounted` | mini_libcxx/include/tagged_ptr.hpp:193-204 | a copy refers to the same allocation, whose counter stays the number of its counted references |
| `TaggedPtr.References.MoveCounted` | mini_libcxx/include/tagged_ptr.hpp:206-214 | the new reference takes over and the old one is null; the counter stays right |
| `TaggedPtr.References.ResetCounted` | mini_libcxx/include/tagged_ptr.hpp:216-232 | the reference becomes null; storage is freed exactly if its container had given it up and this was its last counted reference |
| `TaggedPtr.References.AssignCounted` | mini_libcxx/include/tagged_ptr.hpp:234-251 | the same for assignment, of a reference to itself as well |
| `TaggedPtr.References.MoveAssignCounted` | mini_libcxx/include/tagged_ptr.hpp:253-267 | the same for move assignment |
| `TaggedPtr.References.IsValidCounted` | mini_libcxx/include/tagged_ptr.hpp:282-290 | a counted reference reports valid exactly if it is not null and its container has not deallocated |
| `TaggedPtr.References.CreateCounted` | mini_libcxx/include/tagged_ptr.hpp:833-863 | a counted reference is made exactly if there is no linked one to the allocation |
| `TaggedPtr.References.CopyLinked` | mini_libcxx/include/tagged_ptr.hpp:380-403 | a copy enters the list of the allocation, which stays exactly its linked references |
| `TaggedPtr.References.MoveLinked` | mini_libcxx/include/tagged_ptr.hpp:405-432 | the new reference takes the place of the old one in the list |
| `TaggedPtr.References.ResetLinked` | mini_libcxx/include/tagged_ptr.hpp:434-458 | the reference becomes null and leaves the list, whose other links stay those of a doubly linked list |
| `TaggedPtr.References.MoveAssignLinked` | mini_libcxx/include/tagged_ptr.hpp:486-520 | the same for move assignment, of a reference to itself as well |
| `TaggedPtr.References.IsValidLinked` | mini_libcxx/include/tagged_ptr.hpp:535-541 | a linked reference that reports valid refers to storage that is there and was not deallocated |
| `TaggedPtr.References.CreateLinked` | mini_libcxx/include/tagged_ptr.hpp:865-902 | a linked reference is made exactly if there is no counted one to the allocation |
| `TaggedPtr.References.Deallocate` | mini_libcxx/include/tagged_ptr.hpp:700-740 | storage with counted references stays as a tombstone; otherwise exactly its linked references become null and it is freed, once |
| `TaggedPtr.KeptWhileHeld` | mini_libcxx/include/tagged_ptr.hpp:32-35 | after deallocation the storage is there exactly as long as a counted reference holds it |
| `TaggedPtr.OneKind` | mini_libcxx/include/tagged_ptr.hpp:54-56 | no allocation has references of both kinds, and no reference refers to freed storage |
| `TaggedPtr.Unlinked` | mini_libcxx/include/tagged_ptr.hpp:434-458 | taking any member out of a doubly linked list leaves the list without it |
| `TaggedPtr.MovedChained` | mini_libcxx/include/tagged_ptr.hpp:405-432 | putting a new reference in the place of a member leaves a doubly linked list |

## Left out

- `hive.hpp`, `raw_dyn_array.hpp`, and handles inside the containers: references and handles are node identities, or numbers from a counter.
- TaggedPtr.References.CreateCounted: the number of references stays below 2^62, so that it never reaches the mode and tombstone bits; container identifiers and the order of references are left out.
- `set.hpp`: the same descents over the same tree as `map.hpp`, without values.
- Handle checks, templates and `consteval` branches: keys are integers, values are integers, and the runtime branch is modelled.
- `hashmap.hpp` copy and move operations, removal by handle, iteration: bookkeeping over the modelled operations.
- System calls: whether mmap succeeds, and the record or region that it gives, are parameters; mappings start at multiples of the page size.
- `mmap.c`, `allocate_buddy_chunk_state_group` and the lists of unused records: ordinary list bookkeeping.
- Memory orderings, value barriers and constant time: memory is sequentially consistent and the exclusive load and store are one swap.
- The Keccak permutation: an arbitrary function on states of 200 bytes.
- CROSS, NTRU-LPrime, SPHINCS+, `strlen`, `memset`, `memxor` and the other simple routines of `src/string`.
- RbPointer.RbTree.Remove: the endless dereference is reported as a result, because the model takes the intended exit.
- RbRebalance.DoInsertRebalanceLeft: relinking is grouped by rotation and followed by the colour writes, because the single writes do not depend on each other; this holds for all four rebalancing methods.
- RbCopy.CopyAssign: trees are values and a context stands for the parent pointers, so the single pointer writes are not modelled, and neither is that writing into a reused node leaves the rest of the old tree alone.
- FreeSet.Arena.ClearFreeSet: runs with no enqueuer in flight; the interleaved drain is the state machine of the same module.
- Buddy.BuddyArena.Alloc: bitmaps are sets of bit positions and intrusive lists are sequences, so mask arithmetic and link words are not modelled; the same holds for the small-class layer.
- Heap.MallocArena.Allocate: the drain of the free queue before each call, and the order of the list of all class blocks, are left out; the metadata are stored decoded, and `MetadataRoundTrip` is about the packed words.
- Malloc.RegionFits: an alignment is given by its logarithm, because any other alignment is undefined behaviour.
- Memory.Memmove: addresses are indices into one array whose length is a multiple of eight and at most 2^64.
- Strings.Strcmp: words are sequences of bytes; that HASZERO computes the test for a zero byte is `ZerosFindsZero`.
- HashMap.HashMap.Emplace: the keyed hash of each table is an arbitrary function that is chosen when the table is made.
