# Verified models of GVFS data structures

The three servers of this repository, name server, data server and proxy, stand on a small set of
stateful data structures. This project models them in Dafny 4.11 and proves what they are relied on
for. `dafny verify dfyconfig.toml` checks all of it.

- **Pool allocator** of the name server (`PoolLayout`, `PoolTiling`, `PoolLists`, `PoolMoves`,
  `MemPool`): a heap of words with headers, footers, page sentinels and size-class lists. The
  invariant says that the blocks of a page tile the 4080 bytes between its sentinels, that every
  header equals its footer, that the lists hold exactly the free blocks, each in the bucket of its
  size, that no two free blocks are adjacent, and that the counters are exact. The first block of a
  page is its record; it is never freed, which is what makes reading "the block before it" safe.
- **Red-black tree** of the name server (`RbShape`, `RbLinks`, `RbRemoval`, `RbTree`): real nodes
  with parent links and one shared sentinel whose own parent link is scratch space in a deletion. A
  ghost shape says what the links represent; a context (a shape with a hole) says where an operation
  stands. The root's parent link is never constrained. `NetMap` builds the data server index on it.
- **LRU block cache** of the data server (`BlockCache`, `FileSource`): block map, buffers, queue and
  copy loop, against the direct read of the same immutable file.
- **Recursive mutex, condition wait and reference table** (`RecursiveMutex`, `RefTable`, and both
  together in `TableLocking`) as state machines over the steps of any number of threads, and the
  **hash table** below the references (`HashTable`) with its chains linked in place.
- **Timer heap** (`TimerHeap`): the array heap and the loop that drains it; `IdleTimers` has the steps of
  its callers.
- **Bump pool and growing array** of the proxy (`BumpPool`, `GrowArray`): blocks filled from the bottom,
  large allocations beside them, and an array that grows in place at the top of the first block.
- **List sort** (`QueueSort`): relinking a ring in place. **Base64** (`Base64`): section 4 of RFC 4648.
- `Sequences` and `Alignment` hold what several of them share.

Where the code does not do what one would expect of it, the model follows the code and the exact
condition is proved: large allocations wrap above 2^32 - 56 bytes (`PoolLayout.LargeFitsIff`), a read
at a position of 2^63 or more is an error directly but an empty read through the cache
(`FileSource.OSFileSource.Read`), the buffer limit can wrap to 0, extracting at an inner index may
break heap order (`TimerHeap.OSHeap.Extract`), a condition wait is right at lock depth 1 only
(`RecursiveMutex.WaitExactlyAtOne`), a bump pool hands out bytes behind a block if and only if its size is not
of whole words (`BumpPool.AlignStaysIff`, `BumpPool.Overrun`) and after a reset never uses the blocks before the
current one (`BumpPool.PassedOver`), two overlapping calls insert an idle timer twice
(`IdleTimers.InsertedTwice`), an array made for no elements may never get storage
(`GrowArray.GrowArray.Push`), and the data server index fails with all slots taken even where
it needs none, and never gets a slot back (`NetMap.SlotsUsedUp`, `NetMap.SlotsNeverBack`). The comment in
`OSHeap.cpp` speaks of the greatest element at the root; the code keeps the least there, and so does the model.

## Model

| member | source | states |
|---|---|---|
| PoolLayout.GetIndex | nameservice/core/gfs_mem.c:322-336 | the shift loop gives the size class whose bounds are powers of two: 0 up to 32, 7 above 2048, the logarithm between |
| PoolLayout.FirstProbeFits | nameservice/core/gfs_mem.c:155-208 | for a small request: the rounded block size is at most 3104, is at least 24 more than the request, a block of any class from the first one searched up to class 6 fits on first probe, and a fresh page behind its record always has room |
| PoolLayout.LargeFitsIff | nameservice/core/gfs_mem.c:162-178 | the 32-bit size of a large region covers the request and its headers if and only if the request is at most 2^32 - 56 |
| PoolLayout.LargestRequestWraps | nameservice/core/gfs_mem.c:162-178 | the largest request wraps to a region of 48 bytes |
| PoolTiling.TilingSplit | nameservice/core/gfs_mem.c:339-366 | splitting a block keeps the tiling of its page |
| PoolTiling.TilingMerge | nameservice/core/gfs_mem.c:384-444 | merging two neighbours keeps the tiling of their page |
| PoolTiling.PageTiled | nameservice/core/gfs_mem.c:84-153 | every byte between the sentinels of a page lies in exactly one block: the blocks tile all 4080 bytes |
| PoolTiling.BlocksDisjoint | nameservice/core/gfs_mem.c:84-153 | two blocks never share a byte |
| PoolTiling.TagsKept | nameservice/core/gfs_mem.c:339-366 | headers and footers written for the changed blocks, with all others untouched, keep every header equal to its footer and to the block it describes |
| PoolLists.ListsUnlink | nameservice/core/gfs_mem.c:356-358 | taking a block out of its list keeps the bucket lists exactly the free blocks, each in the bucket of its size |
| PoolLists.ListsInsert | nameservice/core/gfs_mem.c:432-441 | inserting a freed block keeps them so |
| PoolMoves.PlacedLayout | nameservice/core/gfs_mem.c:339-366 | placing a request, with or without a split, keeps tiling, tags, lists, the absence of adjacent free blocks, and the live table |
| PoolMoves.FreedBlock | nameservice/core/gfs_mem.c:210-243 | marking a live block free, tags included, keeps everything but two conditions for that block alone: it is in no list yet and may touch a free neighbour |
| MemPool.LiveBlock | nameservice/core/gfs_mem.c:210-243 | a live block is a user block and never the record at the head of its page, so the record is never freed |
| PoolMoves.JoinedBlocks | nameservice/core/gfs_mem.c:384-444 | merging the freed block with its free neighbours leaves no two adjacent free blocks, and all other blocks as they were |
| PoolMoves.JoinedLayout | nameservice/core/gfs_mem.c:384-444 | the four-way coalescing keeps all of it |
| MemPool.Pool.constructor | nameservice/core/gfs_mem.c:84-153 | a new pool of n pages is valid, its counters exact |
| MemPool.Pool.FindFit | nameservice/core/gfs_mem.c:369-381 | first fit: a found block is free and large enough; none found means the list has none |
| MemPool.Pool.FindInLists | nameservice/core/gfs_mem.c:189-198 | the first fit of the first list that has one; none found means that no list has one |
| MemPool.Pool.Place | nameservice/core/gfs_mem.c:339-366 | the placed block and the rest of a split are exactly those of the specification; `used` grows by the block; nothing outside the block changes |
| MemPool.Pool.Coalesce | nameservice/core/gfs_mem.c:384-444 | the heap afterwards is the specified join; only the joined block is written |
| MemPool.Pool.Extend | nameservice/core/gfs_mem.c:470-500 | as many pages as the pool started with are added; the last list then holds a block of 4032 bytes; user data is kept |
| MemPool.Pool.Malloc | nameservice/core/gfs_mem.c:155-208 | every request of 1 to 2^32 - 56 bytes returns a new region, small or large, whose bytes are all its own: each belongs to no region held before; those regions and the user data in them are kept; a small one is the first block that fits, from the first list searched on, and only if no list has one are pages added; 0 gives NULL and changes nothing |
| MemPool.Pool.FindInLast | nameservice/core/gfs_mem.c:185-200 | after one extension the last list always has a fit, and its first one is found, so the NULL return behind it is dead |
| MemPool.Pool.Free | nameservice/core/gfs_mem.c:210-243 | exactly the given region leaves the live table; NULL changes nothing; the user data of all others is kept; the invariant holds |
| MemPool.Pool.Reset | nameservice/core/gfs_mem.c:245-294 | no region is live any more, the pages are those the pool started with, laid out afresh, and the total of the process goes down by what the others took |
| MemPool.Pool.Destroy | nameservice/core/gfs_mem.c:296-320 | everything is given back, each region once, the page with the pool structure last, and the total of the process is what it was without the pool |
| MemPool.Pool.Store | nameservice/core/gfs_mem.c:155-208 | whatever a user writes into a region, small or large, the allocator stays valid |
| MemPool.Pool.MallocInternal | nameservice/core/gfs_mem.c:446-459 | the total of the process counts every region taken |
| MemPool.Pool.FreeInternal | nameservice/core/gfs_mem.c:461-468 | and every region given back |
| MemPool.Pool.UsersDisjoint | nameservice/core/gfs_mem.c:155-208 | a byte of a region, small or large, is in no other region and in no header, footer, page sentinel or record of a large region |
| MemPool.AllFreed | nameservice/core/gfs_mem.c:210-243 | with no user block left every page is its record and one free block over the rest |
| MemPool.NeighbourTags | nameservice/core/gfs_mem.c:384-400 | the neighbours that coalescing reads through footers and headers are the blocks before and after |
| MemPool.SizeExact | nameservice/core/gfs_mem.c:92-116 | the pool size, a 32-bit product, is exact if and only if there are fewer than 2^20 pages |
| MemPool.PoolCreate | nameservice/core/gfs_mem.c:84-100 | NULL exactly for no pages; otherwise a valid pool, counted in the total of the process |
| RbShape.HeightLog | nameservice/core/gfs_rbtree.c:267-290 | a red-black tree of n entries has height h with 2^h <= (n + 1)^2 |
| RbShape.FillRedBlack | nameservice/core/gfs_rbtree.c:103-265 | a subtree of the right black height fits in its place |
| RbShape.HoleRedBlack | nameservice/core/gfs_rbtree.c:103-265 | every place of a red-black tree is such a place |
| RbLinks.RotatedLeftView | nameservice/core/gfs_rbtree.c:292-317 | the links written by a left rotation show the rotated tree, with all parent links right |
| RbLinks.RotatedRightView | nameservice/core/gfs_rbtree.c:320-345 | the mirror image |
| RbRemoval.MovedView | nameservice/core/gfs_rbtree.c:145-190 | hooking out the successor and putting it in the place of the node shows the tree with the successor in that place, also when it was the right child, and the sentinel then points to the right parent |
| RbRemoval.MovedContents | nameservice/core/gfs_rbtree.c:103-190 | exactly the entry of the node is gone from the in-order sequence, and exactly the node from the tree |
| RbRemoval.UnhookFits | nameservice/core/gfs_rbtree.c:112-143 | the child that moves up fits, one black short exactly if the node taken out was black |
| RbRemoval.MendedFits | nameservice/core/gfs_rbtree.c:201-265 | when the loop of the deletion ends, painting its node black gives a red-black tree |
| RbRemoval.FinalLeftFits | nameservice/core/gfs_rbtree.c:218-231 | with a red outer nephew one more rotation repairs the whole tree |
| RbTree.Tree.constructor | nameservice/core/gfs_rbtree.h:36-40 | an empty tree is valid |
| RbTree.Tree.RotateLeft | nameservice/core/gfs_rbtree.c:292-317 | the rotated shape, the same entries and nodes, the sentinel untouched |
| RbTree.Tree.RotateRight | nameservice/core/gfs_rbtree.c:320-345 | the same for the mirror image |
| RbTree.Tree.InsertValue | nameservice/core/gfs_rbtree.c:80-100 | the node hangs as a red leaf in the place after all keys not greater than its own |
| RbTree.Tree.Insert | nameservice/core/gfs_rbtree.c:10-77 | the in-order sequence gains exactly the node, after all keys not greater and before all greater ones; red-black, linked and sorted again; the loop ends |
| RbTree.Tree.Delete | nameservice/core/gfs_rbtree.c:103-265 | the in-order sequence loses exactly the node and the tree keeps all others; red-black, linked and sorted again; the loop ends |
| RbTree.Tree.MendStep | nameservice/core/gfs_rbtree.c:201-262 | each turn of the deletion loop, in all mirrored cases, keeps the entries and the shortage where the loop stands, and comes nearer to the end |
| RbTree.Tree.LookupValue | nameservice/core/gfs_rbtree.c:267-290 | a node is found exactly when the key is present, in k turns with 2^k <= (n + 1)^2 |
| NetMap.NetMap.constructor | nameservice/net/gfs_net_map.c:22-51 | 1024 free slots and an empty index |
| NetMap.NetMap.Add | nameservice/net/gfs_net_map.c:53-80 | an error, changing neither tree, list nor data, exactly when no slot is free, even for a key already there; otherwise the map has the key; a slot is taken for good exactly for a new key, so free slots are 1024 less the new keys ever added; the tree gains no node but a free slot, so calls can follow one another |
| NetMap.NetMap.Get | nameservice/net/gfs_net_map.c:82-92 | agrees with the map |
| NetMap.NetMap.Remove | nameservice/net/gfs_net_map.c:94-109 | an error, changing neither tree, list nor data, exactly when no slot is free; otherwise the key is gone from tree and list, and its slot stays taken; the tree gains no node |
| NetMap.SlotsUsedUp | nameservice/net/gfs_net_map.c:53-109 | a run of 1024 new keys after which setting a key that has its slot, and removing it, fail |
| NetMap.SlotsNeverBack | nameservice/net/gfs_net_map.c:53-109 | a run that keeps at most one key and ends without a free slot all the same |
| BlockCache.TouchedRecent | dataserver/SOURCES/GV-DataServer-1.0/CommonUtilitiesLib/OSQueue.cpp:42-84 | whatever the limit, the cached blocks are the most recently used ones, in order of last use: what is evicted is least recently used |
| BlockCache.Hit | dataserver/SOURCES/GV-DataServer-1.0/CommonUtilitiesLib/OSFileSource.cpp:143-153 | a use of a cached block moves it to the tail and changes nothing else |
| BlockCache.Reused | dataserver/SOURCES/GV-DataServer-1.0/CommonUtilitiesLib/OSFileSource.cpp:266-310 | at the limit the least recently used buffer, and no other, takes the new block; map and indices stay inverse |
| BlockCache.Grown | dataserver/SOURCES/GV-DataServer-1.0/CommonUtilitiesLib/OSFileSource.cpp:155-178 | below the limit a new buffer takes it |
| BlockCache.ProgressStep | dataserver/SOURCES/GV-DataServer-1.0/CommonUtilitiesLib/OSFileSource.cpp:463-516 | each turn of the copy loop copies up to the end of a block, of the file or of the request, and the next turn starts where it stopped |
| BlockCache.SliceExact | dataserver/SOURCES/GV-DataServer-1.0/CommonUtilitiesLib/OSFileSource.cpp:409-592 | byte by byte what a read of the file gives and what the target holds after it |
| FileSource.OSFileSource.IncMaxBuffers | dataserver/SOURCES/GV-DataServer-1.0/CommonUtilitiesLib/OSFileSource.h:82 | the limit grows modulo 2^32; a positive one stays so unless the sum is exactly 2^32 |
| FileSource.OSFileSource.DecMaxBuffers | dataserver/SOURCES/GV-DataServer-1.0/CommonUtilitiesLib/OSFileSource.h:83 | a positive limit stays positive |
| FileSource.OSFileSource.MarkUsed | dataserver/SOURCES/GV-DataServer-1.0/CommonUtilitiesLib/OSFileSource.cpp:143-153 | to the tail of the queue, unless it is there |
| FileSource.OSFileSource.GetBufferElement | dataserver/SOURCES/GV-DataServer-1.0/CommonUtilitiesLib/OSFileSource.cpp:155-185 | a new buffer at the tail below the limit, else the head of the queue, none if it is empty |
| FileSource.OSFileSource.DeleteOldBuffs | dataserver/SOURCES/GV-DataServer-1.0/CommonUtilitiesLib/OSFileSource.cpp:255-264 | the least recently used buffers above the limit go |
| FileSource.OSFileSource.AllocateBufferMap | dataserver/SOURCES/GV-DataServer-1.0/CommonUtilitiesLib/OSFileSource.cpp:210-253 | an unchanged configuration keeps the cache; otherwise it starts empty, with buffers of 32 KB units whatever unit size was asked for; all sizes are 32-bit products, and not ok is exactly a division by one that has wrapped to 0 |
| FileSource.ChosenExact | dataserver/SOURCES/GV-DataServer-1.0/CommonUtilitiesLib/OSFileSource.cpp:210-253 | the automatic choice: as many units as the bytes of one second of the bit rate fill, at least one and at most the number allowed |
| FileSource.OSFileSource.GetBuffer | dataserver/SOURCES/GV-DataServer-1.0/CommonUtilitiesLib/OSFileSource.cpp:266-310 | there is a buffer exactly when the limit is positive; the cached blocks are then those of the LRU specification, at most the limit; it needs filling exactly when the block was not cached |
| FileSource.OSFileSource.FillBuffer | dataserver/SOURCES/GV-DataServer-1.0/CommonUtilitiesLib/OSFileSource.cpp:378-390 | the buffer then holds the bytes of its block, fewer only at the end of the file |
| FileSource.OSFileSource.ReadFromPos | dataserver/SOURCES/GV-DataServer-1.0/CommonUtilitiesLib/OSFileSource.cpp:561-592 | the bytes at the position, fewer only at the end of the file; an error exactly for a position that is negative as an off_t |
| FileSource.OSFileSource.ReadFromCache | dataserver/SOURCES/GV-DataServer-1.0/CommonUtilitiesLib/OSFileSource.cpp:409-531 | the same bytes and count as the direct read, for any position and length, also past the last block of the map, using the blocks of the range one after the other; without a buffer, none |
| FileSource.OSFileSource.Read | dataserver/SOURCES/GV-DataServer-1.0/CommonUtilitiesLib/OSFileSource.cpp:396-406 | equal to the direct read in status, count and buffer if and only if not both the cache serves it and either the position is 2^63 or more, or the limit has wrapped to 0 and the position is inside the file; a read that the cache serves uses each block of its range once, in order, so that the cached blocks are those of the LRU specification; a direct one leaves the cache alone |
| FileSource.FarReadDiffers | dataserver/SOURCES/GV-DataServer-1.0/CommonUtilitiesLib/OSFileSource.cpp:396-406 | an input of the first case: one byte at position 2^64 - 1 |
| FileSource.LimitWraps | dataserver/SOURCES/GV-DataServer-1.0/CommonUtilitiesLib/OSFileSource.h:82 | an input of the second: a limit of 2^31 raised by 2^31, then a read at 0 |
| RecursiveMutex.TestExact | dataserver/SOURCES/GV-DataServer-1.0/CommonUtilitiesLib/OSMutex.cpp:94-157 | in every interleaving of any number of threads: the unlocked test finds the caller as holder if and only if it owns the mutex, the count is then its nesting depth, and only one thread is inside |
| RecursiveMutex.RunKeeps | dataserver/SOURCES/GV-DataServer-1.0/CommonUtilitiesLib/OSMutex.cpp:94-157 | the invariant holds in every state of every run whose waits start at depth 1 |
| RecursiveMutex.LockAssertions | dataserver/SOURCES/GV-DataServer-1.0/CommonUtilitiesLib/OSMutex.cpp:107-110 | the assertions in the lock functions hold |
| RecursiveMutex.LockTakes | dataserver/SOURCES/GV-DataServer-1.0/CommonUtilitiesLib/OSMutex.cpp:94-111 | locking a free mutex ends at depth 1 with the mutex owned, locking an owned one ends one deeper, and locking that of another blocks |
| RecursiveMutex.TryLockTakes | dataserver/SOURCES/GV-DataServer-1.0/CommonUtilitiesLib/OSMutex.cpp:131-157 | trying does the same, and is refused, changing nothing, exactly where locking blocks |
| RecursiveMutex.UnlockGives | dataserver/SOURCES/GV-DataServer-1.0/CommonUtilitiesLib/OSMutex.cpp:113-129 | unlocking goes one up, gives the mutex back with the last lock, and does nothing to one not owned |
| RecursiveMutex.WaitReturns | dataserver/SOURCES/GV-DataServer-1.0/CommonUtilitiesLib/OSCond.cpp:79-118 | a condition wait can end whenever the mutex is free, with the lock as before it |
| RecursiveMutex.WaitExactlyAtOne | dataserver/SOURCES/GV-DataServer-1.0/CommonUtilitiesLib/OSCond.cpp:79-118 | entering the condition wait leaves a count of depth - 1 behind a free mutex: the invariant survives if and only if the depth was 1 |
| RecursiveMutex.LeftoverCount | dataserver/SOURCES/GV-DataServer-1.0/CommonUtilitiesLib/OSCond.cpp:79-118 | a thread that then locks and unlocks once keeps the mutex although it gave back its only lock |
| RecursiveMutex.NestedWaitStuck | dataserver/SOURCES/GV-DataServer-1.0/CommonUtilitiesLib/OSCond.cpp:79-118 | a run from the start to that state: two locks and a wait by one thread, then a lock and an unlock by another |
| RefTable.RunKeeps | dataserver/SOURCES/GV-DataServer-1.0/CommonUtilitiesLib/OSRef.cpp:57-196 | after any interleaving each ref has a count below 2^32 that agrees with the handles it has out, and each string has at most one ref in the table |
| RefTable.CountIsNet | dataserver/SOURCES/GV-DataServer-1.0/CommonUtilitiesLib/OSRef.cpp:57-196 | in any run the count of a ref changes, modulo 2^32, by the replies that gave it out less its releases, read off the replies and events alone |
| RefTable.TableEffect | dataserver/SOURCES/GV-DataServer-1.0/CommonUtilitiesLib/OSRef.cpp:57-196 | the table as a map from strings to refs, after each operation: Register and RegisterOrResolve put their ref in, a finished unregistration takes its ref out, Swap replaces, and everything else is as before |
| RefTable.ReplyEffect | dataserver/SOURCES/GV-DataServer-1.0/CommonUtilitiesLib/OSRef.cpp:57-196 | a lookup finds what stands under its string; an unregistration waits, or fails, exactly above its level |
| RefTable.LeavesOnly | dataserver/SOURCES/GV-DataServer-1.0/CommonUtilitiesLib/OSRef.cpp:114-196 | a ref leaves the table only replaced by Swap or by an unregistration at a level not below its handles modulo 2^32: below 2^32 handles, with at most that many outstanding |
| RefTable.TakenOutWhileHeld | dataserver/SOURCES/GV-DataServer-1.0/CommonUtilitiesLib/OSRef.cpp:114-196 | a run to 2^32 handles of one ref, after which an unregistration at level 0 takes it out under all of them |
| RefTable.HeldStays | dataserver/SOURCES/GV-DataServer-1.0/CommonUtilitiesLib/OSRef.cpp:114-196 | a ref that is held throughout, not swapped, and unregistered at level 0 only, is in the table to the end |
| RefTable.RepliesExact | dataserver/SOURCES/GV-DataServer-1.0/CommonUtilitiesLib/OSRef.cpp:57-162 | a string resolves exactly when it is in the table; Register accepts exactly a new, non-empty string; TryUnRegister succeeds exactly at a low count, and then never waits |
| TableLocking.StepKeeps | dataserver/SOURCES/GV-DataServer-1.0/CommonUtilitiesLib/OSRef.cpp:57-196 | operations and mutex interleaved step by step: every wait starts at depth 1; the write that ends an operation does the whole operation that was called on the present state of the table, so no update is lost, and no other step changes the table |
| TableLocking.Serial | dataserver/SOURCES/GV-DataServer-1.0/CommonUtilitiesLib/OSRef.cpp:57-196 | after any such run from the start the table is as after exactly the operations written in it, whole and in the order of their writes, the mutex as after a run with all waits at depth 1, and a thread inside an operation is alone there and owns the mutex |
| TableLocking.Completes | dataserver/SOURCES/GV-DataServer-1.0/CommonUtilitiesLib/OSRef.cpp:57-196 | with the mutex free any operation that need not wait comes to its end: the table is as it says and the mutex is free again |
| HashTable.MaskIsRemainder | dataserver/SOURCES/GV-DataServer-1.0/CommonUtilitiesLib/OSHashTable.h:59-61 | for every size that passes the power-of-two test, masking with size - 1 is the remainder |
| HashTable.Table.ComputeIndex | dataserver/SOURCES/GV-DataServer-1.0/CommonUtilitiesLib/OSHashTable.h:121-127 | the index is the hash value modulo the size, for every size of at least 1 |
| HashTable.Table.Map | dataserver/SOURCES/GV-DataServer-1.0/CommonUtilitiesLib/OSHashTable.h:98-108 | the first entry of the chain with the key, none before it; nothing exactly if there is none; while all entries added had new keys, what the map kept beside the table says |
| HashTable.Table.Add | dataserver/SOURCES/GV-DataServer-1.0/CommonUtilitiesLib/OSHashTable.h:68-75 | the entry is at the front of its chain, the other chains are as before, the number of entries is exact; the map gains it |
| HashTable.Table.Remove | dataserver/SOURCES/GV-DataServer-1.0/CommonUtilitiesLib/OSHashTable.h:76-97 | the entry itself leaves its chain, and its key the map, if it is there; otherwise nothing changes |
| HashTable.MapRefines | dataserver/SOURCES/GV-DataServer-1.0/CommonUtilitiesLib/OSHashTable.h:98-108 | with unique keys, Map is look-up in a finite map |
| HashTable.AddRefines | dataserver/SOURCES/GV-DataServer-1.0/CommonUtilitiesLib/OSHashTable.h:68-75 | Add is extension of that map |
| HashTable.RemoveRefines | dataserver/SOURCES/GV-DataServer-1.0/CommonUtilitiesLib/OSHashTable.h:76-97 | Remove is removal from it |
| HashTable.Iter.Next | dataserver/SOURCES/GV-DataServer-1.0/CommonUtilitiesLib/OSHashTable.h:146-155 | one entry further in the joined chains |
| HashTable.Iter.Walk | dataserver/SOURCES/GV-DataServer-1.0/CommonUtilitiesLib/OSHashTable.h:130-161 | a whole walk visits every entry exactly once |
| TimerHeap.OSHeap.Insert | dataserver/SOURCES/GV-DataServer-1.0/CommonUtilitiesLib/OSHeap.cpp:50-101 | the elements gain exactly the new one, through bubbling and doubling; heap order is kept; the element knows its heap |
| TimerHeap.OSHeap.Extract | dataserver/SOURCES/GV-DataServer-1.0/CommonUtilitiesLib/OSHeap.cpp:104-157 | the elements lose exactly the victim, which is in no heap then; a heap in order stays so if and only if the index is the root or the last leaf, or the moved leaf is not less than the parent of the index |
| TimerHeap.OrderLost | dataserver/SOURCES/GV-DataServer-1.0/CommonUtilitiesLib/OSHeap.cpp:104-157 | a heap of six timers, built by Insert, that is out of order after one of them is extracted |
| TimerHeap.OSHeap.Remove | dataserver/SOURCES/GV-DataServer-1.0/CommonUtilitiesLib/OSHeap.cpp:159-179 | exactly the given element goes, or nothing if it is not there; order as for its index |
| TimerHeap.OSHeap.ExtractMin | dataserver/SOURCES/GV-DataServer-1.0/CommonUtilitiesLib/OSHeap.h:63 | of a heap in order a least element, and order is kept |
| TimerHeap.OSHeap.SetIdleTimer | dataserver/SOURCES/GV-DataServer-1.0/CommonUtilitiesLib/IdleTask.cpp:45-58 | called by one thread at a time: a timer not set gets its deadline and is in the heap; one already set is left alone |
| IdleTimers.RunKeeps | dataserver/SOURCES/GV-DataServer-1.0/CommonUtilitiesLib/IdleTask.cpp:45-58 | step by step, in any interleaving whose calls for the same timer do not overlap: a timer is in the heap at most once and marked exactly then |
| IdleTimers.StepKeeps | dataserver/SOURCES/GV-DataServer-1.0/CommonUtilitiesLib/IdleTask.cpp:45-58 | and the key of a timer in the heap does not change |
| IdleTimers.CallCompletes | dataserver/SOURCES/GV-DataServer-1.0/CommonUtilitiesLib/IdleTask.cpp:45-58 | a call that nothing disturbs leaves a marked timer alone and gives any other its deadline and puts it in the heap |
| IdleTimers.InsertedTwice | dataserver/SOURCES/GV-DataServer-1.0/CommonUtilitiesLib/IdleTask.cpp:45-58 | two calls that do overlap, for any timer not set and in any such state: the key of a timer in the heap changes, it is inserted twice, and after firing once it is in the heap without being marked |
| TimerHeap.OSHeap.Drain | dataserver/SOURCES/GV-DataServer-1.0/CommonUtilitiesLib/IdleTask.cpp:77-98 | nothing fires early, in any heap; from a heap in order exactly the due timers fire, earliest first, and only later deadlines stay |
| TimerHeap.RootLeast | dataserver/SOURCES/GV-DataServer-1.0/CommonUtilitiesLib/OSHeap.cpp:184-200 | in a heap in order the root is least |
| TimerHeap.SinkResult | dataserver/SOURCES/GV-DataServer-1.0/CommonUtilitiesLib/OSHeap.cpp:104-157 | after sifting down, order is in doubt only above the index, and there exactly by the moved leaf |
| QueueSort.SortRing | nameservice/core/gfs_queue.c:35-63 | the ring, relinked in place, holds the nodes in the order of the specified sort |
| QueueSort.SortPermutes | nameservice/core/gfs_queue.c:35-63 | that is a permutation, for any comparison at all |
| QueueSort.SortSorted | nameservice/core/gfs_queue.c:35-63 | sorted, whenever the comparison is a total preorder on the nodes |
| QueueSort.SortStable | nameservice/core/gfs_queue.c:32-63 | and equivalent nodes keep their order |
| QueueSort.Middle | nameservice/core/gfs_queue.c:3-29 | node floor(n / 2) of a ring of n nodes, the sentinel of an empty one |
| BumpPool.AlignStaysIff | gvfsproxy/src/core/gvfs_palloc.c:85-111 | aligning the top keeps it in the block, wherever it is, if and only if the block ends on a word |
| BumpPool.LimitExact | gvfsproxy/src/core/gvfs_palloc.c:17-39 | the chain serves exactly what fits behind the header of a first block and is less than a page |
| BumpPool.Overrun | gvfsproxy/src/core/gvfs_palloc.c:85-141 | for every pool size that is not of whole words, wherever malloc puts the pool, a run of allocations whose last is behind the only block, because the unsigned difference wraps |
| BumpPool.UsersApart | gvfsproxy/src/core/gvfs_palloc.c:85-220 | two different regions held share no byte, in blocks, large, or one of each |
| BumpPool.Pool.HeldApart | gvfsproxy/src/core/gvfs_palloc.c:85-220 | in a pool of whole words no two regions held share a byte; those in blocks are behind a block header and below its top, large ones in no block |
| BumpPool.Pool.Palloc | gvfsproxy/src/core/gvfs_palloc.c:85-111 | aligned to a word; up to the limit at the top of the first block from the current one that shows room, or in a new block; above it the region of malloc itself, held by the first free one of the first five records or else by a new one; NULL exactly if no block shows room and malloc gives none, or, above the limit, if malloc gives no such region or there is neither a free record nor room for one; what users hold gains exactly the region, which overlaps nothing held or kept by the pool; NULL changes nothing |
| BumpPool.Pool.Pnalloc | gvfsproxy/src/core/gvfs_palloc.c:115-141 | the same, without aligning |
| BumpPool.Pool.Pcalloc | gvfsproxy/src/core/gvfs_palloc.c:267-277 | the same as Palloc; the region is zeroed and the bytes of all others are kept |
| BumpPool.Pool.PallocBlock | gvfsproxy/src/core/gvfs_palloc.c:145-181 | the chain gains one block, every block searched but the last has failed once more, and the search starts behind those that have failed six times: the current block stays in the chain |
| BumpPool.Pool.PallocLarge | gvfsproxy/src/core/gvfs_palloc.c:185-220 | a region of malloc in the first free one of the first five records, else in a new one; given back, with NULL, exactly if there is no room for that |
| BumpPool.Pool.PallocTiny | gvfsproxy/src/core/gvfs_palloc.c:185-220 | where a record is itself a large allocation the recursion ends, when malloc gives no more, with NULL and everything given back |
| BumpPool.Pool.Pfree | gvfsproxy/src/core/gvfs_palloc.c:249-263 | declined exactly if no record holds the pointer; otherwise exactly that region goes and its record stays for the next one |
| BumpPool.Pool.Reset | gvfsproxy/src/core/gvfs_palloc.c:65-81 | nothing is held, the large regions are given back, and every block is empty |
| BumpPool.ResetStarts | gvfsproxy/src/core/gvfs_palloc.c:65-111 | after a reset each block has room for any request of the chain, but the search starts at the current block, which gives it |
| BumpPool.PassedOver | gvfsproxy/src/core/gvfs_palloc.c:65-181 | a block before the current one that is empty stays empty in every run of allocations and resets: it is never used again |
| BumpPool.FirstBlockLost | gvfsproxy/src/core/gvfs_palloc.c:65-181 | a run to that state: eight blocks, each full, a reset, and an allocation that goes to the current block, which is not the first, although the first is empty and has room |
| BumpPool.Pool.Destroy | gvfsproxy/src/core/gvfs_palloc.c:43-61 | every region malloc gave is given back, each once |
| GrowArray.GrowArray.Push | gvfsproxy/src/core/gvfs_array.c:49-92 | the elements so far and every other region are kept; the array grows in place exactly if it is full, ends at the top of the first block and has room behind it, else moves, to twice its room, if it is full; NULL exactly if it would have to move and the pool refuses that many bytes; the new element is in the storage if and only if the earlier ones are and the array had room for one at all or grew in place |
| GrowArray.GrowArray.PushN | gvfsproxy/src/core/gvfs_array.c:96-142 | the same for n elements at once, moving to twice the larger of n and its room; if the earlier ones are in the storage, so are these |
| GrowArray.FirstElementOutside | gvfsproxy/src/core/gvfs_array.c:49-92 | an array made for no elements in a pool of 1024 bytes, wherever malloc puts it, whose first element is outside its storage: twice nothing is nothing |
| GrowArray.CreateArray | gvfsproxy/src/core/gvfs_array.c:8-28 | NULL exactly if the pool refuses the record or then the storage; otherwise a valid array if and only if the 64-bit product of its sizes does not wrap; its record and storage are new |
| GrowArray.GrowArray.Destroy | gvfsproxy/src/core/gvfs_array.c:32-45 | the storage, and then the record, go back where they are at the top of the first block |
| GrowArray.CreateThenDestroy | gvfsproxy/src/core/gvfs_array.c:8-45 | destroying a new array undoes creating it, if both parts fit behind an aligned top of the first block; creating it then never fails |
| Base64.EncodeBase64 | gvfsproxy/src/core/gvfs_string.c:137-175 | the loop writes the encoding and nothing behind it |
| Base64.DecodeBase64 | gvfsproxy/src/core/gvfs_string.c:90-134 | succeeds exactly on accepted texts, writes the decoded bytes and nothing behind them, into a target of any size that holds those, also in place, and writes nothing on failure |
| Base64.ScanPrefix | gvfsproxy/src/core/gvfs_string.c:98-110 | finds the first pad, or a character outside the alphabet before it |
| Base64.RoundTrip | gvfsproxy/src/core/gvfs_string.c:90-175 | decoding an encoding gives the bytes back, for every input |
| Base64.CanonicalBack | gvfsproxy/src/core/gvfs_string.c:90-175 | encoding what an accepted text decodes to gives the text back if and only if the text is canonical: whole groups, pads only at the end, no stray bits |
| Base64.TablesInverse | gvfsproxy/src/core/gvfs_string.c:142-201 | alphabet and decoding table are inverse, and the pad is in neither |
| Base64.AlphabetExact | gvfsproxy/src/core/gvfs_string.c:142-201 | the alphabet character by character, the decoding table as the place in it, and the pad |
| Base64.EncodedBits | gvfsproxy/src/core/gvfs_string.c:137-175 | each group of the encoding is the 24 bits of its bytes, most significant first, with zero bits and pads at the end |
| Base64.DecodedBits | gvfsproxy/src/core/gvfs_string.c:90-134 | each group of the decoded bytes is the 24 bits of its characters, the last bits of a short group dropped |

## Left out

- The links of the allocator's free lists, page list and large list live inside the blocks in the
  original; here they are sequences in the pool object, so the list surgery itself is not modelled.
  The pool structure's fields are fields of the object, not words of the first page. In the four
  coalescing cases the insertion into the list, which each case does, is written once behind them.
- Addresses are unbounded integers; malloc returns some region apart from all others, and its failure
  (which ends the process) is not modelled. The loop counter of the page loop is not limited to an int.
- MemPool.Pool.Malloc: for requests above 2^32 - 56 only the bookkeeping is stated, because the region
  the code returns is too small there (`PoolLayout.LargestRequestWraps`).
- Keys of the red-black tree are integers, not 32-bit words: only comparisons matter. The two orders in
  which the rotations test for the parent's side are one method here. In a deletion the test whether
  the successor has a left child is an assertion that it has none.
- The doubly linked queue of the block cache is a sequence in the source object; the cache's own
  links are not modelled. Read errors of the disk, files that change, reopening a source, and the cap
  of one system read at 2 GB are left out, and the map is taken to fit the 32-bit casts of its size.
- RecursiveMutex.RunKeeps: counts are unbounded, so the wrap of 2^32 nested locks is not modelled; reads
  and writes of single fields are taken to be atomic. Fairness and liveness are left out.
- RefTable.RunKeeps: callers release only handles they hold. Every operation is one step here;
  `TableLocking` takes it apart into locking, reading, writing and unlocking, but not the inner lock of an
  operation that calls another, and its callers do not hold the table's mutex themselves: with it
  UnRegister would wait at depth 2; see `RecursiveMutex.WaitExactlyAtOne`.
- The table of references is a sequence in the order the chains are searched; that the chains implement
  a map is proved separately (`HashTable.Table.Map`, `HashTable.Table.Add`, `HashTable.Table.Remove`).
- HashTable.Iter.Walk: the table does not change during the walk.
- The heap's array size is not limited to 32 bits, nor the sum of time and delay to 64. The thread's
  sleep between two drains is left out.
- `gfs_net_map_gettopn` is left out: its comparison reads the map entry as another structure. The sort
  takes the comparison as a parameter. The order of the list behind the index is not modelled.
- NetMap.NetMap.Get: the value stored under a key is an integer that stands for the pointer.
- BumpPool.CreatePool: requires room for the pool's header, which the code writes in any case. The page size is
  4096; addresses are below 2^63; what malloc answers is a function of the regions given and the size asked
  for. `gvfs_pmemalign` is left out.
- GrowArray.GrowArray.PushN: requires that the bytes of the n elements are fewer than 2^63, so that twice as
  many do not wrap; the two counters are not limited to 64 bits.
- Base64.EncodeBase64: source and target buffers are different arrays. The shifts and masks on bytes are
  quotients, remainders and sums. The variant with the URL alphabet is the same code with another table.
- Sockets, event loops, SQL, configuration, logging, HTTP text, AES and zlib, the QTSS module stubs and
  the reader-writer mutex are not part of this model.
