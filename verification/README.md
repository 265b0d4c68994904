# Verified models of koharu

This project models the parts of the koharu microkernel and its user-level
pager that keep state in linked structures, and proves what they keep and
compute. Run `dafny verify dfyconfig.toml` with Dafny 4.11 to check it.

| modules | what they model |
|---|---|
| WavlShape, WavlTree, WavlWord, VmaSet | the weak-AVL tree macros on child links, parent links and red bits, the packed parent word, and the set of memory intervals that keeps a list and a tree over the same nodes |
| TlsfMapping, TlsfBitmap, TlsfHeap, TlsfLists, TlsfSteps, TlsfCut, Tlsf | the two-level segregated-fit heap on a memory of words: headers, boundary tags, lists, bitmaps, malloc, free, realloc, pools, the allocator's own checks |
| PendingFree, TlsfPending | blocks freed from another CPU: the lock-free stack under all interleavings, and its drain on the heap |
| IpcState, IpcProof, IpcRuns, IpcKernel | send, receive, call and reply-receive between threads |
| PageTree, Pmap | the four-level page table of one address space over 4 KiB user pages |
| Buddy, BuddyAllocator, PmmInit | the buddy allocator and the tiling of the boot memory map |
| SchedState, SchedProof, SchedRuns, Scheduler | the multi-level feedback queue scheduler |
| TicketLock | the ticket spin lock under all interleavings |
| KernelList | the intrusive circular list |
| Futex | the futex hash table, on top of Scheduler |
| Grants | frame grants and the map and grant system calls, on top of Pmap |
| ElfImage | the two ELF loaders, the pager's on top of VmaSet, and the merging of program headers |
| Powers, Options | powers of two and division facts; optional results |

Where the source updates memory in place the model is a class with the same
fields, or a map from addresses to words, and its methods make the same
stores in the same order. Each is proved against a function or a predicate
on the abstract state (a tree, a set of blocks, a flat page map, a sequence
of threads). Locks taken with interrupts masked make an operation one step;
the ticket lock and the pending-free stack are modelled one atomic access at
a time, sequentially consistent.

## Findings

Each of these is a lemma or an exact contract.

- `pmm_free_pages` merges any free buddy, whatever its order. It keeps the
  partition exactly when each merged buddy heads a block of the order being
  merged (FreeExact); MergesTakenPage shows three frees after which a free
  block covers a page still handed out. Page 0 cannot show it: address 0 is
  NULL to the source.
- It also reads the flag of a buddy beyond `mem_map`. Whatever is there, the
  partition is kept exactly when, besides, no buddy lies there
  (FreeExactInMap).
- `pmm_init` rounds the end of an entry up when it places `mem_map`, which may
  then take a page that is only partly usable (ArrayUsable, PartialPage). The
  boot loader passes entries of whole pages, for which it does not.
- `ipc_send` and `ipc_call` keep the protocol exactly under their guards
  (SendExact, CallExact). A message to a server that awaits a reply is taken
  for the reply and makes it lose the answer it owes (StrayMessage).
- `tlsf_add_pool` accepts a pool of exactly block_size_max bytes, whose class
  is outside the list array (PoolLimit, LimitInputs).
- `align_up` wraps for sizes above 2^64 - 8, for which `tlsf_malloc` returns a
  block of 24 bytes or little more; all other blocks it returns hold the
  request (Malloc, LimitInputs; Tlsf.WrappedRequest gives an input).
- `tlsf_realloc` does not test for a refused request size. A block of 32 bytes
  or more is then cut to nothing, joins the free blocks and is returned as a
  success; a smaller one is returned as it is. What it returns is in use and
  large enough exactly for sizes up to 2^32 - 8 (Realloc, ReallocExact).
- `vma_insert` accepts start >= end and then breaks the set, unless it fails:
  which it does exactly when the pool is used up or an interval holds start
  beyond its first address (Set.Insert; EmptyInterval gives the input). The
  pager inserts such an interval for a program segment of no bytes at a page
  boundary (LoadPagerSegment).
- SYS_MAP checks one page less than it maps when the virtual address is not
  page-aligned and the range straddles one page more, and none at all when
  physical address plus size wrap at 2^64; in all other cases it checks every
  frame it installs (CoveredExact, InstalledExact; MisalignedRequest and
  Grants.WrappedRequest give the inputs).
- Merging adjacent program headers keeps the image exactly when none with a
  zero-filled tail comes before one with file bytes (MergeFrom, MergeExact).
- `elf_load` adds offset and file size in 64 bits, and its bounds test is right
  exactly when the sum does not wrap or wraps beyond the file size
  (BoundsTest; WrappedHeader gives an input).
- A trylock interrupted for 2^32 tickets can enter a held lock (StaleTry); only
  then can it (TryCasExact).
- A failed `pmap_map` leaves an empty table behind exactly when, at the page it
  failed at, a frame was left (Map; FailedMapLeaks gives an input); otherwise
  the table count is exact (TableCount).
- The comment in `user/include/tree.h:63` gives leaves rank 1; the code gives
  them rank 0 (no red bits, rank of NULL -1). The model follows the code.

## Model

| member | source | states |
|---|---|---|
| `WavlTree.RbTree.Init` | user/include/tree.h:315-317 | a new tree is the empty, valid one |
| `WavlTree.RbTree.RotateLeft` | user/include/tree.h:382-392 | the cells at the focus hold the tree rotated left: child and parent links of every node agree, and the rest of the tree is as it was |
| `WavlTree.RbTree.RotateRight` | user/include/tree.h:394-404 | the mirror image |
| `WavlTree.RaiseLOk` | user/include/tree.h:465-513 | the rotations for a left child that grew restore all rank differences to 1 or 2 at the old rank and keep the in-order walk |
| `WavlTree.RaiseROk` | user/include/tree.h:465-513 | the same for a right child |
| `WavlTree.LowerLOk` | user/include/tree.h:517-593 | the rotations after a left child lost a rank restore the rank rule and keep the walk, in the single and the double case |
| `WavlTree.LowerROk` | user/include/tree.h:517-593 | the same for a right child |
| `WavlTree.LowerLeftFits` | user/include/tree.h:517-593 | after those rotations the whole tree around the focus obeys the rank rule and has the same walk |
| `WavlTree.LowerRightFits` | user/include/tree.h:517-593 | the mirror image |
| `WavlTree.RbTree.InsertColor` | user/include/tree.h:465-513 | from a new leaf, whose parent edge may be one rank too short, the climb ends in a tree that obeys the weak-AVL rule with the same in-order walk |
| `WavlTree.RbTree.RemoveColor` | user/include/tree.h:517-593 | from an edge that is one rank too long the climb ends in a weak-AVL tree with the same in-order walk |
| `WavlTree.RbTree.Descend` | user/include/tree.h:640-662 | the descent finds the node with an equal key, or the empty place where the new key keeps the order |
| `WavlTree.RbTree.Attach` | user/include/tree.h:640-663 | hanging the new leaf at that place and rebalancing gives a weak-AVL tree whose walk has the node exactly there |
| `WavlTree.RbTree.Insert` | user/include/tree.h:640-669 | RB_INSERT on any weak-AVL tree gives one again, its walk is the old one with the node put in at the place its key belongs, and a node with an equal key (also the node itself) leaves the tree alone and is returned; a tree has the cells of its own nodes and takes over that of the new one |
| `WavlTree.RbTree.RemoveOne` | user/include/tree.h:597-635 | removing a node with at most one child gives a weak-AVL tree over the walk without it |
| `WavlTree.RbTree.RemoveTwo` | user/include/tree.h:597-635 | the in-order successor takes the place of a node with two children; the walk only loses the node |
| `WavlTree.RbTree.Remove` | user/include/tree.h:597-635 | RB_REMOVE on any weak-AVL tree gives one again; its walk is the old one without exactly the removed node, which is returned and whose cell the tree gives up |
| `WavlTree.RbTree.NFind` | user/include/tree.h:693-710 | the first node, in order, whose key is not below the one asked for, or NULL when there is none |
| `WavlTree.RbTree.MinMax` | user/include/tree.h:760-772 | the first or the last node of the walk |
| `WavlTree.RbTree.Prev` | user/include/tree.h:738-756 | the node before the given one in the walk, or NULL for the first |
| `WavlTree.RankBySize` | user/include/tree.h:53-63 | a tree of rank r has 2^(r+1) <= (n+1)^2 |
| `WavlTree.HeightBound` | user/include/tree.h:70-70 | 2^height <= (n+1)^2 for a tree whose walk has n nodes, the integer form of height <= 2 lg(n+1) |
| `WavlWord.Reads` | user/include/tree.h:337-346 | the masking macros read from the packed parent word the parent and the two red bits of the cell |
| `WavlWord.PackInjective` | user/include/tree.h:328-346 | the packed word loses nothing |
| `WavlWord.SetParentPacked` | user/include/tree.h:350-353 | mask and or on the word change the parent and keep the bits |
| `WavlWord.FlipsPacked` | user/include/tree.h:341-342 | the two xor macros flip one red bit each and nothing else |
| `WavlWord.BothBitsPacked` | user/include/tree.h:510-588 | clearing or setting both bits at once keeps the parent |
| `VmaSet.Set.constructor` | user/vma.c:32-43 | an empty set over a pool of 256 free nodes |
| `VmaSet.NeighboursDecide` | user/vma.c:45-53 | looking only at the two neighbours decides whether the new interval overlaps any in the set |
| `VmaSet.StraddleDecides` | user/vma.c:45-53 | for start >= end only the test of the node before the place can refuse, and it does exactly when some interval holds start beyond its first address |
| `VmaSet.FindMiss` | user/vma.c:74-83 | when neither candidate of vma_find holds the address no interval of the set does |
| `VmaSet.Set.Find` | user/vma.c:74-83 | returns the interval that holds the address; NULL exactly when a scan of all intervals would find none |
| `VmaSet.Set.Alloc` | user/vma.c:13-17 | takes the first free node; NULL exactly when the pool is used up |
| `VmaSet.Set.Release` | user/vma.c:19-22 | the node is the first free one again |
| `VmaSet.Set.Insert` | user/vma.c:45-72 | fails exactly when the pool is used up or the interval clashes: for start < end with any interval it overlaps, for start >= end with one that holds start beyond its first address; a failure changes nothing, and a success puts the node at its place in the list; afterwards list and tree agree on sorted, disjoint intervals if and only if start < end or the call was one of those that fail |
| `VmaSet.EmptyInterval` | user/vma.c:45-72 | [5, 9) and then [5, 5): both succeed, the list has two nodes and the tree one |
| `VmaSet.Set.Remove` | user/vma.c:85-93 | the node leaves the list and the tree, both still agree, and it is the first free node |
| `VmaSet.DisjointInsert` | user/vma.c:45-72 | sorted, disjoint intervals stay so when one that meets neither neighbour is put between them |
| `TlsfMapping.FlsSizetIsFls` | kernel/lib/tlsf.c:179-193 | the 64-bit search for the highest bit from two 32-bit halves is right for every size |
| `TlsfMapping.MappingInsertOk` | kernel/lib/tlsf.c:513-530 | every size lies in the range [min(c), min(c+1)) of the class mapping_insert gives |
| `TlsfMapping.ClassIs` | kernel/lib/tlsf.c:513-530 | the class of a size, in which each row from 512 bytes on doubles the one before, is the pair mapping_insert computes from the highest bit |
| `TlsfMapping.ClassUnique` | kernel/lib/tlsf.c:513-530 | and in the range of no other class |
| `TlsfMapping.ClassInRange` | kernel/lib/tlsf.c:513-530 | the class array is large enough exactly for the sizes below block_size_max |
| `TlsfMapping.SearchClassBounds` | kernel/lib/tlsf.c:533-541 | the class mapping_search starts at begins at or above the request and, from 256 bytes on, below size + size/32 |
| `TlsfMapping.SearchIs` | kernel/lib/tlsf.c:533-541 | and the search class is the pair mapping_search computes |
| `TlsfMapping.GoodFit` | kernel/lib/tlsf.c:533-541 | every block in a class at or after that one is large enough |
| `TlsfMapping.LeastClass` | kernel/lib/tlsf.c:533-541 | the search class is the first class all of whose blocks are large enough |
| `TlsfMapping.Adjust` | kernel/lib/tlsf.c:468-506 | 0 exactly for size 0 and for sizes above 2^32 - 8 up to 2^64 - 8; up to 2^32 - 8 a multiple of 8 that is the minimum block size or less than 8 above the request; above 2^64 - 8, where align_up wraps, the minimum block size |
| `TlsfBitmap.SetBitOk` | kernel/lib/tlsf.c:605-623 | setting a bit changes that bit only |
| `TlsfBitmap.ClearBitOk` | kernel/lib/tlsf.c:576-602 | clearing a bit changes that bit only |
| `TlsfBitmap.FromOk` | kernel/lib/tlsf.c:543-573 | masking keeps the bits from i on and its lowest set bit is the first one set at or after i |
| `TlsfBitmap.SetBitValue` | kernel/lib/tlsf.c:605-623 | the bit-serial definition is the arithmetic of or-ing in 1 << i |
| `TlsfBitmap.ClearBitValue` | kernel/lib/tlsf.c:576-602 | and that of clearing it, of and-not with 1 << i |
| `TlsfBitmap.FromValue` | kernel/lib/tlsf.c:543-573 | and that of masking, of and with ~0 << i |
| `TlsfHeap.MarkPhys` | kernel/lib/tlsf.c:453-466 | setting a block free or used with its neighbour's prev-free bit keeps the block layout |
| `TlsfHeap.SplitPhys` | kernel/lib/tlsf.c:647-666 | splitting a block keeps the layout: the two parts tile the old block |
| `TlsfHeap.AbsorbPhys` | kernel/lib/tlsf.c:669-676 | absorbing the next block keeps the layout: one block covers both |
| `TlsfHeap.AddPoolPhys` | kernel/lib/tlsf.c:980-1027 | a new pool is one free block and a sentinel, apart from all other blocks |
| `TlsfLists.Unfile` | kernel/lib/tlsf.c:576-602 | unlinking a block from the middle or the head of its list leaves every list doubly linked and every other free block on the list of its class |
| `TlsfLists.File` | kernel/lib/tlsf.c:605-623 | pushing a block puts it at the head of the list of its class and leaves the others alone |
| `TlsfLists.MapInsert` | kernel/lib/tlsf.c:605-623 | both bitmap levels say again which lists are non-empty |
| `TlsfLists.MapEmpty` | kernel/lib/tlsf.c:576-602 | the same when a list has become empty, whether or not its row has |
| `TlsfLists.RowsSearch` | kernel/lib/tlsf.c:543-573 | a clear first-level word means every list of every later row is empty |
| `TlsfSteps.MarkFreeStep` | kernel/lib/tlsf.c:453-459 | the memory words written are those of the new block state; lists and live payloads keep |
| `TlsfSteps.MarkUsedStep` | kernel/lib/tlsf.c:461-466 | the same for marking used |
| `TlsfSteps.SplitStep` | kernel/lib/tlsf.c:647-666 | the words written by a split, on a free or a used block, are those of the split layout, whatever flag bits the payload word at the new header held |
| `TlsfSteps.AbsorbStep` | kernel/lib/tlsf.c:669-676 | the words written by an absorb are those of the joined layout |
| `Tlsf.Heap.constructor` | kernel/lib/tlsf.c:797-813 | all lists empty, both bitmaps clear |
| `Tlsf.Heap.SearchSuitable` | kernel/lib/tlsf.c:543-573 | the first non-empty class at or after the given one; none only if every such list is empty |
| `Tlsf.Heap.RemoveFreeBlock` | kernel/lib/tlsf.c:576-602 | exactly the block is off its list, bitmaps and links agree, no live payload changes |
| `Tlsf.Heap.InsertFreeBlock` | kernel/lib/tlsf.c:605-623 | the block heads the list of its class, the other lists are as they were, bitmaps and links agree, no live payload changes |
| `Tlsf.Heap.MarkAsFree` | kernel/lib/tlsf.c:453-459 | header, neighbour's bit and back link say the block is free |
| `Tlsf.Heap.MarkAsUsed` | kernel/lib/tlsf.c:461-466 | header and neighbour's bit say the block is used |
| `Tlsf.Heap.MergePrev` | kernel/lib/tlsf.c:679-691 | joins with the block before it if that one is free, reached by the stored back link |
| `Tlsf.Heap.MergeNext` | kernel/lib/tlsf.c:694-707 | joins with the block after it if that one is free |
| `Tlsf.Heap.LocateFree` | kernel/lib/tlsf.c:753-781 | takes the first block of the first non-empty list at or after the search class; fails exactly when all of them are empty |
| `Tlsf.Heap.TrimFree` | kernel/lib/tlsf.c:710-720 | cuts the block down to the request exactly if the remainder makes a block, and files that |
| `Tlsf.Heap.PrepareUsed` | kernel/lib/tlsf.c:783-794 | the block is live, cut down to the request if 32 bytes or more are to spare; no other live block changes |
| `Tlsf.Heap.Malloc` | kernel/lib/tlsf.c:1115-1121 | NULL exactly when the request is refused or every list from its search class on is empty; otherwise the first block of the first list that is not, cut down to the request if 32 bytes or more are to spare, and it holds the request if and only if that is at most 2^64 - 8; whole invariant and every live payload kept, pool bytes conserved |
| `Tlsf.Heap.Free` | kernel/lib/tlsf.c:1180-1193 | the block and only it is no longer live; no two neighbours are free, whole invariant and all other live payloads kept, pool bytes conserved |
| `Tlsf.Heap.TrimUsed` | kernel/lib/tlsf.c:723-735 | cuts a used block and joins the rest with what follows; at size 0 the block itself is given back and its pool ends at its header |
| `Tlsf.Heap.Grow` | kernel/lib/tlsf.c:1208-1264 | takes in the free block after it; payloads kept |
| `Tlsf.Heap.Realloc` | kernel/lib/tlsf.c:1208-1264 | for every request, over the heap before: as malloc for NULL, as free for size 0; else the own address exactly if the block, or it with a free block after it, has room, NULL exactly if not and every list from the search class on is empty, and otherwise the first block of the first list that is not; with its exact size, the payload up to the smaller size, and every other live payload kept; a failure changes nothing; what is returned is in use if and only if the size is accepted, wraps or the block has less than 32 bytes, and then holds the request if and only if that is at most 2^32 - 8; else the block has been freed |
| `Tlsf.ReallocExact` | kernel/lib/tlsf.c:1208-1264 | the finished realloc of a block in use leaves what it returns in use, in some layout the memory holds, if and only if adjust_request_size accepts the size, or that wraps, or the block is below 32 bytes |
| `Tlsf.Heap.AddPool` | kernel/lib/tlsf.c:980-1027 | accepts exactly aligned pools of a legal size; they become one free block coalesced with nothing; live blocks keep |
| `Tlsf.PoolLimit` | kernel/lib/tlsf.c:980-1027 | a pool of exactly block_size_max passes the size check, yet has no class in the array; every smaller legal one has |
| `Tlsf.PoolBytesIs` | kernel/lib/tlsf.c:985-995 | a pool of 16 bytes or more has 16 less, rounded down to 8, for blocks; a smaller one wraps to a size that is refused |
| `TlsfCut.CutPhys` | kernel/lib/tlsf.c:647-666 | a used block split at size 0 is a block layout again: its header is a sentinel, and the remainder starts a pool of its own |
| `TlsfCut.CutStep` | kernel/lib/tlsf.c:723-735 | the words that block_split and block_set_prev_used write at size 0 are those of that layout, with lists and live payloads kept |
| `TlsfCut.SentinelFixed` | kernel/lib/tlsf.c:723-735 | in no layout that a memory holds is a block in use whose header one layout reads as a sentinel |
| `Tlsf.LimitInputs` | kernel/lib/tlsf.c:468-506 | the smallest pool without a class, the smallest refused request 0xFFFFFFF9, and the smallest that wraps |
| `Tlsf.WrappedRequest` | kernel/lib/tlsf.c:468-506 | an input: with one pool of 256 bytes a malloc of 2^64 - 1 bytes succeeds with a block of less than 56 |
| `Tlsf.PoolTiled` | kernel/lib/tlsf.c:904-919 | the blocks of a pool tile it from its first byte to its sentinel |
| `Tlsf.WalkBytes` | kernel/lib/tlsf.c:904-919 | sizes and headers met on the walk over a pool add up to its bytes |
| `Tlsf.Heap.CheckPool` | kernel/lib/tlsf.c:822-839 | on any memory whose walk comes to a sentinel, minus the number of headers whose prev-free bit disagrees with the block before |
| `Tlsf.PoolPasses` | kernel/lib/tlsf.c:932-939 | on a valid heap the walk visits exactly the blocks of the pool and finds no such header |
| `Tlsf.Heap.Check` | kernel/lib/tlsf.c:841-894 | on any memory whose lists come to block_null, 0 exactly if both bitmap levels and the lists agree and each listed block is free between two in use, marked as such, not too small and on the list of its class |
| `Tlsf.CheckPasses` | kernel/lib/tlsf.c:841-894 | all this holds of every class of a valid heap |
| `TlsfPending.Drain` | kernel/lib/tlsf.c:1271-1290 | on the real heap: frees exactly the listed blocks; freeing one leaves the link of each one still pending, and every other live payload, as it was |
| `PendingFree.StepKeeps` | kernel/lib/tlsf.c:1271-1306 | each load, write, compare-and-swap, exchange, read or free of any CPU keeps the stack and the drained chain well linked, disjoint and in the right hands, also when the head value recurs |
| `PendingFree.DrainKeeps` | kernel/lib/tlsf.c:1282-1289 | freeing one block leaves the links of those still to be freed |
| `PendingFree.ExactlyOnce` | kernel/mm/kmem.c:53-70 | in every interleaving each pushed block is freed exactly once or still in flight; when nothing is under way all pushes have been freed |
| `PendingFree.PushEnds` | kernel/lib/tlsf.c:1292-1307 | a push without interference is on the list after three steps, linked to what was there |
| `PendingFree.FlushEnds` | kernel/lib/tlsf.c:1271-1290 | a flush empties the list and frees exactly the blocks on it |
| `IpcProof.SendKeeps` | kernel/task/ipc.c:91-116 | a guarded ipc_send keeps the protocol invariant |
| `IpcProof.RecvKeeps` | kernel/task/ipc.c:118-147 | ipc_recv keeps it, also as the second half of ipc_reply_recv |
| `IpcProof.RecvReceived` | kernel/task/ipc.c:118-147 | a thread that has been woken inside ipc_recv and not yet run again holds the sender, words and number of the last message it received |
| `IpcProof.CallKeeps` | kernel/task/ipc.c:149-189 | a guarded ipc_call keeps it |
| `IpcProof.AnswersWhatItOwes` | kernel/task/ipc.c:199-213 | ipc_reply_recv replies exactly when the thread owes an answer, and then to the caller blocked on exactly the accepted call, which has had no reply |
| `IpcProof.AnswerKeeps` | kernel/task/ipc.c:191-213 | the reply keeps the invariant of all other threads and of the logs |
| `IpcProof.DispatchKeeps` | kernel/task/ipc.c:181-186 | running a thread that ends its call keeps the invariant |
| `IpcRuns.SendExact` | kernel/task/ipc.c:91-116 | ipc_send keeps the invariant if and only if the target is another thread that is not awaiting a reply |
| `IpcRuns.CallExact` | kernel/task/ipc.c:149-189 | ipc_call keeps it if and only if, besides, the caller's own queue is empty |
| `IpcRuns.RunSafety` | kernel/task/ipc.c:23-29 | in every guarded run messages are received at most once and in the order they arrived at the endpoint, each call has at most one reply, and it comes from the thread that accepted it |
| `IpcRuns.DispatchReturns` | kernel/task/ipc.c:138-146 | what ipc_recv reads when the thread runs again is the last message received, what ipc_call reads is the answer to that call |
| `IpcRuns.ReceiveReturnsNext` | kernel/task/ipc.c:118-147 | whatever happens between blocking in ipc_recv and running again, exactly one message is received meanwhile, and it is the one returned: none is skipped, overwritten or returned twice |
| `IpcRuns.AnswerGives` | kernel/task/ipc.c:191-213 | ipc_reply_recv gives the call it owes, and no other, the words it was passed: the caller is woken with them under this thread's name |
| `IpcRuns.RunArrives` | kernel/task/ipc.c:91-189 | what arrives at a thread in a run is, in order, the words passed to the ipc_send and ipc_call events aimed at it, under the callers' names and call numbers |
| `IpcRuns.RunDelivers` | kernel/task/ipc.c:91-189 | what a thread has received is the beginning of that |
| `IpcRuns.CallReturnsAnswer` | kernel/task/ipc.c:181-213 | what ipc_call returns is the argument of an ipc_reply_recv event of the run by the thread it names, which then owed that call |
| `IpcRuns.RunKeepsContext` | kernel/task/ipc.c:27-29 | whatever others do, a thread inside a call keeps the reply context it had |
| `IpcRuns.NestedCall` | kernel/task/ipc.c:27-29 | a nested call returns with ipc_sender, ipc_prev_seq and the call owed as they were before |
| `IpcRuns.StrayMessage` | kernel/task/ipc.c:37-45 | without the guard a message to a server in a nested call makes it lose the reply it owes |
| `IpcKernel.Kernel.constructor` | kernel/task/ipc.c:91-116 | threads as created, none inside the protocol: the invariant holds |
| `IpcKernel.Kernel.HandMessage` | kernel/task/ipc.c:32-48 | ipc_deliver_msg as its stores |
| `IpcKernel.Kernel.HandReply` | kernel/task/ipc.c:50-64 | ipc_deliver_reply; ipc_prev_seq is untouched |
| `IpcKernel.Kernel.AcceptHead` | kernel/task/ipc.c:66-89 | ipc_accept takes the first sender; a caller stays blocked |
| `IpcKernel.Kernel.IpcSend` | kernel/task/ipc.c:91-116 | the words passed arrive at the target under the sender's name, with number 0; the stores give the protocol step, and the invariant is kept exactly under the guard |
| `IpcKernel.Kernel.IpcRecv` | kernel/task/ipc.c:118-147 | the stores give the protocol step and keep the invariant; a message accepted at once is the last received |
| `IpcKernel.Kernel.IpcCall` | kernel/task/ipc.c:149-189 | the words passed arrive at the target with the next call number; the stores give the protocol step, and the invariant is kept exactly under the guards |
| `IpcKernel.Kernel.Resume` | kernel/task/ipc.c:138-186 | the stores after sched_block: what ipc_recv returns is the last message received, what ipc_call returns is the answer to that call, and the end of a call restores ipc_sender |
| `IpcKernel.Kernel.IpcReplyRecv` | kernel/task/ipc.c:191-238 | exactly if an answer is owed, its caller is woken with the words passed and this thread as sender and the reply is logged; then receives; invariant kept |
| `PageTree.AddTableOk` | kernel/arch/x86_64/pmap.c:99-158 | linking a zeroed frame as a lower table keeps the tree of tables |
| `PageTree.AddTableView` | kernel/arch/x86_64/pmap.c:99-158 | and changes no translation |
| `PageTree.SetLeafView` | kernel/arch/x86_64/pmap.c:160-166 | writing a leaf changes the translation of that page only |
| `PageTree.RemoveTableOk` | kernel/arch/x86_64/pmap.c:203-222 | taking out an empty table keeps the tree of tables and frees its frame |
| `PageTree.RemoveTableView` | kernel/arch/x86_64/pmap.c:203-222 | and changes no translation |
| `PageTree.InUse` | kernel/arch/x86_64/pmap.c:203-222 | without empty tables the tables below the root are exactly those over a mapped page |
| `PageTree.TableCount` | kernel/arch/x86_64/pmap.c:66-71 | then there are 1 + (512 GiB regions) + (1 GiB regions) + (2 MiB regions) tables, counting regions that hold a mapped page |
| `PageTree.SameCount` | kernel/arch/x86_64/pmap.c:169-226 | two such trees with the same translations use equally many frames |
| `PageTree.IndexesAre` | kernel/arch/x86_64/pmap.c:14-17 | the table indexes of a page are the nine-bit parts of its address |
| `PageTree.WalkIsView` | kernel/arch/x86_64/pmap.c:99-167 | a processor walk over four present entries ends at the entry of the flat view, and allows writing, user access and execution exactly if that entry does |
| `PageTree.ViewIsWalk` | kernel/arch/x86_64/pmap.c:274-310 | and for every page the view maps there is such a walk |
| `PageTree.KernelAdd` | kernel/arch/x86_64/pmap.c:99-167 | linking a table leaves the kernel half of the root alone (so do KernelLeaf and KernelRemove for the other steps) |
| `Pmap.Pmap.constructor` | kernel/arch/x86_64/pmap.c:79-97 | an address space whose user half maps nothing |
| `Pmap.Pmap.MapPage` | kernel/arch/x86_64/pmap.c:99-167 | succeeds exactly if the missing tables can be had; then the page and no other has a new entry, with the frame and with write, user, global, no-execute and PAT bits as the flags say; no frame is lost either way, the kernel half stays, and no empty table is left exactly if it succeeds or no frame was left at all |
| `Pmap.Pmap.UnmapPage` | kernel/arch/x86_64/pmap.c:169-226 | the page and no other is unmapped; tables that become empty are freed, the others stay |
| `Pmap.Pmap.IsTableEmpty` | kernel/arch/x86_64/pmap.c:66-71 | true exactly if no entry is present |
| `Pmap.Pmap.Map` | kernel/arch/x86_64/pmap.c:228-251 | for a size above 0 succeeds exactly if the tables the range lacks beforehand are no more than the frames left; exactly a prefix of the rounded range, all of it on success, is mapped to consecutive frames with the bits the flags say, everything else is as before; no empty table is left exactly if it succeeds or the prefix used up all frames |
| `Pmap.LackingIsCount` | kernel/arch/x86_64/pmap.c:99-140 | the tables a range lacks, counted page by page as pmap_map makes them, are as many as there are table positions over the range without a table |
| `Pmap.RangePages` | kernel/arch/x86_64/pmap.c:235-237 | the pages mapped and unmapped are exactly those that meet the bytes of the request |
| `Pmap.EmptyCount` | kernel/arch/x86_64/pmap.c:203-226 | an address space that maps nothing and has no empty table is its root table alone |
| `Pmap.Pmap.Unmap` | kernel/arch/x86_64/pmap.c:253-272 | every page of the rounded range is unmapped, everything else as before, no empty table is left |
| `Pmap.Pmap.Extract` | kernel/arch/x86_64/pmap.c:274-310 | the frame's address plus the offset, 0 for an unmapped address |
| `Pmap.Pmap.MapThenUnmap` | kernel/arch/x86_64/pmap.c:228-272 | mapping an unmapped range and unmapping it returns every frame that was taken |
| `Pmap.FailedMapLeaks` | kernel/arch/x86_64/pmap.c:99-116 | an input: with one frame left the first table of a page is made, the second is not, and the table that holds nothing stays |
| `Pmap.Pmap.Destroy` | kernel/arch/x86_64/pmap.c:312-342 | every table of the user half and the root is freed exactly once and none is read after it was freed |
| `Buddy.SplitTiles` | kernel/mm/pmm.c:86-95 | halving a block keeps blocks aligned, disjoint and covering the same pages |
| `Buddy.JoinTiles` | kernel/mm/pmm.c:118-130 | joining two buddies does too |
| `Buddy.TakeOk` | kernel/mm/pmm.c:79-84 | taking a block off its list keeps lists, flags, counters and page total in agreement |
| `Buddy.PutOk` | kernel/mm/pmm.c:132-137 | so does putting one on |
| `Buddy.FreeKeeps` | kernel/mm/pmm.c:110-140 | when every free buddy that is merged heads a block of the order being merged, the partition is kept and exactly the freed block is no longer handed out |
| `Buddy.FreeCoalesces` | kernel/mm/pmm.c:110-140 | if no two free blocks are buddies of one order before such a free, none are after it |
| `Buddy.FreedBlock` | kernel/mm/pmm.c:110-140 | the freed pages end up in one free block that is of the largest order or has no free buddy |
| `Buddy.SmallerBuddy` | kernel/mm/pmm.c:122-122 | a free buddy of another order is always smaller than the block being merged |
| `Buddy.FreeExact` | kernel/mm/pmm.c:110-140 | a free of a handed-out block keeps the partition if and only if that condition holds |
| `Buddy.FreeExactInMap` | kernel/mm/pmm.c:110-140 | it keeps the partition for every content of the memory after mem_map if and only if, besides, no buddy the loop looks at lies beyond mem_map |
| `Buddy.OutsideMerge` | kernel/mm/pmm.c:118-130 | a loop that looks beyond mem_map can end with a free block that reaches past it |
| `BuddyAllocator.Allocator.constructor` | kernel/mm/pmm.c:166-172 | empty lists |
| `BuddyAllocator.Allocator.AllocPages` | kernel/mm/pmm.c:72-108 | unconditionally keeps the partition; NULL exactly when no list serves, otherwise the first block of the smallest list that does; exactly that block of the asked order is newly handed out, and no two free blocks become buddies of one order |
| `BuddyAllocator.Allocator.FreePages` | kernel/mm/pmm.c:110-140 | does what Freed says, with flags beyond mem_map read as whatever is there; if no buddy lies beyond mem_map they play no part, and the invariant is kept exactly under the condition of FreeExact, with only that block released and merged as far as it goes |
| `BuddyAllocator.MergesTakenPage` | kernel/mm/pmm.c:122-122 | pages 4 to 7 handed out, 6, 4, 5 freed: a free block covers page 7, still handed out |
| `BuddyAllocator.FirstTwo` | kernel/mm/pmm.c:110-140 | the first two of those frees put the pages on list 0 |
| `PmmInit.AddBlock` | kernel/mm/pmm.c:243-250 | a new aligned block apart from all others extends the partition by its pages |
| `PmmInit.TargetOrder` | kernel/mm/pmm.c:234-241 | the largest order that is aligned and fits |
| `PmmInit.WithinBytes` | kernel/mm/pmm.c:212-214 | a page counts as usable exactly if all its bytes lie in one usable entry, above 1 MiB |
| `PmmInit.ArrayPagesIs` | kernel/mm/pmm.c:174-176 | mem_map takes the fewest whole pages that hold an entry of 24 bytes for each page |
| `PmmInit.TileEntry` | kernel/mm/pmm.c:210-252 | the greedy loop ends with every page of the entry below the pool and outside mem_map in one free block, and every aligned run of 2^k such pages, k < 11, inside one block |
| `PmmInit.Init` | kernel/mm/pmm.c:166-256 | with mem_map as large as the end of physical memory asks, fails exactly when it fits nowhere; otherwise each usable page above 1 MiB outside mem_map has an entry there and belongs either to one free aligned block or to the user pool, never both, every aligned run of 2^k pages to be freed in one entry lies inside one free block, and free_pages is the total |
| `PmmInit.RunServes` | kernel/mm/pmm.c:72-108 | where such a run exists some list of order k or more is not empty, so that pmm_alloc_pages(k) succeeds |
| `PmmInit.BootAlloc` | kernel/mm/kmem.c:146-150 | an input: with one entry of 64 MiB a request of order 4 succeeds right after pmm_init |
| `PmmInit.PlaceArray` | kernel/mm/pmm.c:180-196 | the first entry that can hold mem_map |
| `PmmInit.ArrayUsable` | kernel/mm/pmm.c:180-196 | mem_map lies in usable pages if and only if it ends with the last whole page of its entry, or the page after that is usable too |
| `PmmInit.PartialPage` | kernel/mm/pmm.c:183-184 | an entry of two pages and one byte takes a mem_map of three pages, the last of which is not usable |
| `PmmInit.FrameInPool` | kernel/mm/pmm.c:142-164 | true exactly for the frames of the user pool |
| `SchedProof.TickKeeps` | kernel/task/sched.c:49-82 | a tick, with or without boost and switch, keeps every READY thread on exactly the queue of its level with a full quantum, so the decrement never underflows, and always finds a thread when the quantum ends |
| `SchedProof.YieldKeeps` | kernel/task/sched.c:84-100 | so does a yield |
| `SchedProof.LeaveKeeps` | kernel/task/sched.c:102-132 | so do blocking and exiting |
| `SchedProof.EnqueueKeeps` | kernel/task/sched.c:134-139 | so does waking a thread that is on no queue |
| `SchedProof.TickCharges` | kernel/task/sched.c:57-59 | a tick that neither ends the quantum nor boosts takes one from it and does nothing else |
| `SchedProof.TickDemotes` | kernel/task/sched.c:57-80 | one that ends the quantum puts the thread at the tail of the queue one level lower, of level 3 at most, with the quantum 1, 2, 4 or 8 of that level, and the first thread of the highest queue runs |
| `SchedProof.BoostIs` | kernel/task/sched.c:13-31 | a boost puts all queues behind the first, in order, and exactly the READY threads and the running one at level 0 with quantum 1 |
| `SchedProof.YieldIs` | kernel/task/sched.c:84-100 | a yield puts the thread at the tail of the queue of its own level with a full quantum, and the first thread of the highest queue runs |
| `SchedProof.LeaveIs` | kernel/task/sched.c:102-132 | blocking and exiting change the status of the running thread alone; the CPU halts exactly if all queues are empty, and else the first thread of the highest queue runs |
| `SchedRuns.WaitStep` | kernel/task/sched.c:49-139 | behind p threads of queue 0 every tick brings a thread one place forward or runs it, and nothing moves it back |
| `SchedRuns.FrontRuns` | kernel/task/sched.c:49-139 | so it runs within p + 1 ticks |
| `SchedRuns.BoostGathers` | kernel/task/sched.c:13-31 | after a boosting tick queue 0 holds exactly the READY threads |
| `SchedRuns.NoStarvation` | include/koharu/sched.h:5-10 | every READY thread runs within the ticks to the next boost, at most BOOST_PERIOD, plus one per thread READY then, whatever the others do |
| `Scheduler.Cpu.Pick` | kernel/task/sched.c:33-41 | the head of the first non-empty queue |
| `Scheduler.Cpu.BoostAll` | kernel/task/sched.c:13-31 | the nested loops leave all threads on queue 0 in order, raised |
| `Scheduler.Cpu.SchedTick` | kernel/task/sched.c:49-82 | the stores give the tick of the model, stated over the fields: quantum less one, or demotion to the tail of the next lower queue and the head of the highest queue running, or those after a boost; invariant kept |
| `Scheduler.Cpu.SchedYield` | kernel/task/sched.c:84-100 | the same for a yield: level kept, quantum full, tail of its queue |
| `Scheduler.Cpu.SchedLeave` | kernel/task/sched.c:102-132 | the same for blocking and exiting: only the status changes, the CPU halts exactly if nothing is queued |
| `Scheduler.Cpu.SchedEnqueue` | kernel/task/sched.c:134-139 | the same for waking: tail of queue 0, level 0, quantum 1 |
| `Scheduler.Cpu.constructor` | kernel/task/sched.c:141-166 | after sched_init, enqueuing some threads and sched_boot the invariant holds if and only if there is one; the first of them runs and the others wait in order |
| `Scheduler.Cpu.Create` | include/koharu/thread.h:17-23 | a thread that is created and not started is on no queue and may be enqueued |
| `TicketLock.SpinExact` | kernel/misc/lock.c:9-17 | the spin loop ends exactly for the ticket being served, across 32-bit wrap-around |
| `TicketLock.TryExact` | kernel/misc/lock.c:19-30 | a compare-and-swap that succeeds within 2^32 tickets finds the lock free |
| `TicketLock.StepKeeps` | kernel/misc/lock.c:9-35 | every atomic step of any CPU keeps the invariant |
| `TicketLock.MutualExclusion` | kernel/misc/lock.c:9-35 | in every interleaving at most one CPU is inside and CPUs enter in ticket order |
| `TicketLock.PassOn` | kernel/misc/lock.c:9-36 | the holder of the ticket served passes the lock on in at most three steps of its own |
| `TicketLock.CanEnter` | kernel/misc/lock.c:9-36 | from every state a waiting CPU enters after steps of only those before it and itself, three for each of them and one |
| `TicketLock.TryCasExact` | kernel/misc/lock.c:19-30 | the compare-and-swap keeps the invariant if and only if it fails or the lock is free, and fails to only when 2^32 tickets passed during the trylock |
| `TicketLock.StaleTry` | kernel/misc/lock.c:19-30 | a run of a new lock in which 2^32 tickets pass during a trylock, which then enters while another CPU is inside |
| `KernelList.Nodes.Init` | include/koharu/list.h:20-23 | the head alone is the empty list |
| `KernelList.Nodes.AddBetween` | include/koharu/list.h:25-30 | the four stores put the node between its neighbours |
| `KernelList.Nodes.Add` | include/koharu/list.h:32-34 | puts the node first; other lists are untouched |
| `KernelList.Nodes.AddTail` | include/koharu/list.h:36-38 | puts the node last; other lists are untouched |
| `KernelList.Nodes.Delete` | include/koharu/list.h:45-49 | removes exactly the node, whose links become NULL; other lists are untouched |
| `KernelList.Nodes.Empty` | include/koharu/list.h:51-53 | true exactly for the empty list |
| `ElfImage.FillKernelPage` | kernel/task/init.c:47-63 | the page reads as file bytes and then zeros wherever the loader writes, also for filesz > memsz, and is untouched elsewhere |
| `ElfImage.FillPagerPage` | user/pager.c:65-84 | the same, and zero elsewhere |
| `ElfImage.PagesLoad` | user/pager.c:55-88 | page-wise images make up the image of the segment |
| `ElfImage.SegmentReads` | user/pager.c:61-85 | in particular every address of a loaded segment reads as its image |
| `ElfImage.SegmentPages` | kernel/task/init.c:40-44 | the pages of a segment are exactly those its rounded range meets |
| `ElfImage.BoundsTest` | kernel/task/init.c:32-32 | the test p_offset + p_filesz > size, in 64 bits, decides whether the segment lies inside the file if and only if the sum does not wrap or wraps to more than the file size |
| `ElfImage.WrappedHeader` | kernel/task/init.c:32-32 | an input: one byte at offset 2^64 - 1 passes for every file |
| `ElfImage.LoadSegment` | user/pager.c:61-85 | succeeds exactly when its pages are within the budget, and then every address of the segment reads as file bytes followed by zeros; no other page changes |
| `ElfImage.LoadPagerSegment` | user/pager.c:55-88 | load_segment succeeds exactly when the pages can be had and the set takes their interval, which then stands in it with the right to read, write and execute exactly if PF_R, PF_W and PF_X are set, as code exactly if PF_X is; the set stays valid if and only if it fails or the segment has a page |
| `ElfImage.ElfLoad` | kernel/task/init.c:29-66 | succeeds exactly when every PT_LOAD segment lies inside the file and their pages are within the budget; then exactly their pages are mapped, each reads as the last segment on it, and every segment as its image if no two share a page |
| `ElfImage.MergeExact` | user/main.c:77-84 | merging two adjacent headers keeps the image, for every file, if and only if the first has filesz = memsz or the second filesz = 0 |
| `ElfImage.MergeFrom` | user/main.c:72-85 | the loop absorbs exactly the headers that continue one another in the file and in memory with the same flags, the result runs from the first to the end of the last, and gives the image of each, for every file, if and only if none with a zero-filled tail comes before one with file bytes |
| `Futex.Table.constructor` | kernel/task/futex.c:119-126 | no thread waits on any word |
| `Futex.HashIs` | kernel/task/futex.c:28-30 | words share a bucket exactly if their physical addresses agree in bits 2 to 7 |
| `Futex.Table.Find` | kernel/task/futex.c:32-41 | the queue of the word in the bucket of its hash |
| `Futex.Table.Wait` | kernel/task/futex.c:43-78 | each error exactly in its case and without effect; on 0 the caller is the last waiter of the word, BLOCKED, and another thread runs |
| `Futex.Table.WakeLoop` | kernel/task/futex.c:95-106 | wakes the head, or all, in order |
| `Futex.Table.Wake` | kernel/task/futex.c:80-117 | exactly the head, or all, of the word's queue become READY in queue order and their number is returned; no other queue changes and an empty queue is dropped |
| `Futex.StepKeeps` | kernel/task/futex.c:28-117 | the table stays valid through every scheduler step that wakes no waiter |
| `Grants.AddKeeps` | kernel/task/grant.c:90-118 | one entry per frame and address space, and g_refs counts the holders, within 16 bits |
| `Grants.DropKeeps` | kernel/task/grant.c:120-141 | the same when an entry goes |
| `Grants.Table.constructor` | kernel/task/grant.c:152-165 | no address space holds a frame |
| `Grants.Table.Holds` | kernel/task/grant.c:67-88 | true exactly if the caller has an entry with the rights, or is the root server and nobody holds the pool frame |
| `Grants.Table.Add` | kernel/task/grant.c:90-118 | adds the rights to the entry of the frame, made if absent |
| `Grants.Table.Drop` | kernel/task/grant.c:120-141 | removes the entry and counts one holder less; fails exactly if there is none |
| `Grants.Table.SysGrant` | kernel/task/syscall.c:180-192 | passes on only rights the caller has; the rights on a held frame, over all holders, do not grow, and only the root server brings an unheld one into circulation |
| `Grants.AlignedExact` | kernel/arch/x86_64/pmap.c:228-251 | pmap_map installs no more pages than the size takes if and only if the request straddles no page more |
| `Grants.CoveredExact` | kernel/task/syscall.c:168-172 | the pages checked are all the pages mapped if and only if the virtual range straddles no page more than its size needs and physical address plus size do not wrap at 2^64 |
| `Grants.InstalledExact` | kernel/task/syscall.c:168-172 | every frame installed is one that was checked under the same condition and no other |
| `Grants.MisalignedRequest` | kernel/task/syscall.c:168-172 | one page asked for at address 1: one frame checked, two mapped |
| `Grants.WrappedRequest` | kernel/task/syscall.c:168-172 | two pages asked for from the last frame of the address space on: none is checked, the call succeeds, and frame 0, which the caller may not use, is mapped |
| `Grants.ReadOnlyHolder` | kernel/task/syscall.c:163-170 | an input: a caller that may only read a frame is refused it writable, and gets it readable and not writable |
| `Grants.Table.SysMap` | kernel/task/syscall.c:156-178 | refused, with nothing changed, as soon as one checked frame lacks the right to read, if that is asked, or to write, if that is; otherwise succeeds exactly when the tables it lacks can be had; under the condition of CoveredExact every page installed, even by a call that fails half-way, is one the caller may read or write as asked |
| `Grants.Table.CheckFrames` | kernel/task/syscall.c:168-170 | the loop on addresses, in 64 bits, passes exactly if the caller may use each frame from the first up to the wrapped end |

## Left out

- Tlsf.Heap.AddPool: requires a pool size other than block_size_max, which the code accepts wrongly (PoolLimit).
- Tlsf.Heap.AddPool: the new memory must not overlap blocks already in the heap, as the source demands of its caller.
- IpcRuns.RunSafety: runs are of guarded calls; what one unguarded step does is SendExact, CallExact and StrayMessage.
- VmaSet.Set.Find: requires a non-empty set; on an empty one the code dereferences NULL.
- VmaSet.Set.constructor: one set with its own unused pool; the source shares the pool between sets and relinks all of it whenever no node is free.
- WavlTree.RbTree.Insert: augmentation hooks are not modelled; they are empty here.
- Pmap.Pmap.Map: PROT_HUGE, the kernel half, and locks are not modelled; TLB flushes have no effect on the tables.
- Pmap.Pmap.Map: the allocator of table frames is a set that fails when empty, not the buddy allocator; frames fit the 40 address bits of an entry.
- BuddyAllocator.Allocator.FreePages: list_del of a page beyond mem_map changes no list here; in the source it writes through whatever pointers lie there.
- PmmInit.Init: addresses are unbounded, and no entry ends after max_phys_addr, as the boot loader computes it.
- PmmInit.Init: that no two free blocks are buddies of one order; where two usable entries adjoin, `pmm_init` may leave such a pair.
- SchedRuns.NoStarvation: the tick counter is unbounded; at 64 bits it wraps after billions of years and shifts one boost.
- SchedRuns.NoStarvation: SYS_SCHEDULE and deactivation write level, quantum or state unchecked and are no events of the model.
- TicketLock.MutualExclusion: `holder_cpu` and interrupt flags are not modelled; at most 2^32 CPUs.
- PendingFree.ExactlyOnce: memory is sequentially consistent; what tlsf_free may write is limited to blocks of the heap, which Tlsf.Heap.Free proves of the allocator.
- Futex.Table.Wait: the translated address and the word read are parameters; one CPU, so no wake comes between test and sleep.
- Grants.Table.SysMap: the mapping counters g_maps and SYS_UNMAP's use of them are not modelled: a page mapped over another is never subtracted from them.
- Grants.Table.SysMap: that the caller is the target's pager is assumed; ranges lie in the user half.
- ElfImage.ElfLoad: header validation; headers whose sums wrap at 2^64, for which the source may read outside the file (BoundsTest) or map no page.
- ElfImage.LoadPagerSegment: the same for the sums of its header.
- IpcRuns.RunSafety: call numbers are unbounded; in 64 bits they recur after 2^64 calls of one thread.
- ElfImage.LoadSegment: page allocation and mapping are one budget.
- ElfImage.MergeFrom: headers have filesz <= memsz, as the gABI (chapter 5) demands.
- Pmap.Pmap.constructor: a frame for the root is given; the source does not test whether it got one.
- Scheduler.Cpu.Create: allocation of the thread, its stack and its address space.
- Grants.Table.Holds: `pmap` NULL and the other null-pointer tests.
- kmalloc's slow path beyond the drain of the pending list, krealloc across CPUs, kmalloc_aligned.
- tlsf_memalign, tlsf_remove_pool, splay trees, RB_NEXT, RB_FIND and RB_REINSERT: not used by the modelled files.
- Memory is a map of words; a word never written reads as 0 where the source reads garbage, and no result depends on it.
- Thread control, register exchange, thread destruction, copying of message words to user memory.
- Boot, firmware, assembly, interrupts, APIC, ACPI, UART, console, cpio, string and print routines.
- Races between CPUs in IPC, futex, grants and scheduling: only the boot CPU runs.
