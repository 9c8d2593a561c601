# A verified model of the kernel's core structures

This project models the parts of a small AMD64 kernel in which a fast structure has to agree with a
simple one, and proves that it does.  The kernel is written in C and changes its structures in place;
the model keeps that form: classes whose methods walk page tables, relink lists, edit dirent bytes and
update counters.  Each such method is proved against a step on plain values, and the main theorems are
about those values.

| files | what they model |
|---|---|
| `AddressSpaces`, `CopyingFork`, `CopyOnWrite` | user address spaces as a flat table of mappings; both branches of fork, faults and release; the eager-copy machine they refine |
| `PhysicalPages`, `TableForest`, `PageTables` | the frame allocator, the forest of four-level tables, and the code that walks and edits it |
| `LruCache`, `BlockRequests`, `FlatRequests` | the write-back block cache as a value, byte requests on it, and the flat array that they make of it |
| `LinkedNodes`, `BlockCache` | the linked queue, hash index and pages that implement it |
| `RingBuffer`, `RingProtocol`, `RingProgress`, `RingCalls` | the byte ring, a blocking reader and writer on it step by step, why they come to rest, and what their calls promise |
| `Ext2Layout`, `Dirents`, `Ext2Directory` | ext2 directories down to the bytes of each block (ext2 "Directory Structure", linked directory entries) |
| `Ext2Groups`, `Ext2Files` | ext2 bitmaps with two levels of counters; files with direct and indirect blocks |
| `KernelHeap`, `Slabs`, `KernelPages` | the heap's block list, the slab allocator, and pages taken for the kernel |
| `RamIndex`, `RamFiles` | ramfs files with their two-level index |
| `PathNames`, `Vnodes` | path strings, the vnode tree with mounts, printing and resolving paths |
| `RunQueues`, `RoundRobin` | the circular run queues, and the order in which they select threads |
| `Memory`, `Sequences` | bytes, pages, options, and small facts that several parts share |

Pointers into raw memory (heap headers, L1 pages, vnodes, threads) are addresses into a map held by the
class.  Clocks, devices and the network do not appear; where the kernel stops the machine for want of
memory, a method returns a failure and promises nothing more, or says exactly when that happens.

## What the code does where one might expect something else

- Page faults: the handler tests the exception number and not the error code for the write bit
  (`arch/amd64/hw/exc.c:73`), which is always set for page faults, and refuses address 0
  (`arch/amd64/hw/exc.c:55`).  Copy-on-write therefore equals eager copying except for a store at
  address 0 of a page that fork made read-only (`CopyOnWrite.RunRefinesEager`, `ForkLosesAddressZero`).
- Read-only pages: the handler cannot tell a page that fork made read-only from one that was mapped so.  A
  private page mapped for reading becomes writable when it is stored to, and a store to a shared one stops
  the machine; `CopyOnWrite.ReadOnlyStore` gives the exact condition, `ReadOnlyBecomesWritable` a state.
- Contiguous frames: the scan never looks at the last window (`arch/amd64/mm/phys.c:230`,
  `PhysicalPages.LastWindow`), and for more frames than there are its bound wraps.
- Block requests: the offset inside the page is reused in every round (`sys/block/blk.c:101-119`,
  `sys/block/blk.c:155-174`).  `BlockRequests.ReadExact` and `WriteExact` say exactly which requests are
  served; `MissedRead` and `MissedWrite` give a disk that goes wrong for every other one.
- ext2 shrinking: the indirect block is freed whenever there was one (`fs/ext2/alloc.c:238`), although 13
  or more blocks may remain.  `Ext2Files.Ext2File.Resize` states exactly when the file stays in order,
  and `Ext2Files.CutToThirteen` makes one that does not.
- ext2 allocation: the outer scan goes on after a hit (`fs/ext2/alloc.c:76-95`), so the last group with a
  free number wins; the bitmap in the buffer is still that group's.
- ext2 release does not look at the bit it clears; `Ext2Groups.MarkedAgrees` says what a double free does.
- Rings: one slot always stays empty, so a ring of one slot moves no byte and stops both sides.
- Heap requests: rounding is done in 64-bit arithmetic; `KernelHeap.RoundedExact` gives its exact range.
  Above it a request can be granted with no bytes, or with a header written over another;
  `KernelHeap.Heap.Alloc` says exactly when, `KernelHeap.SmallestCollision` gives a heap.
- Vnodes: nothing keeps a vnode from being attached below itself (`Vnodes.SelfAttached`), a mount point from
  being detached, or a filesystem root from being mounted a second time (`Vnodes.MountedTwice`), as a
  filesystem with one global root allows (`fs/sysfs.c:72`, `sys/dev.c:73`), or inside itself;
  `Vnodes.AttachSoundIff`, `DetachSoundIff` and `MountSoundIff` say exactly when a tree results.
- Slab sizes: the object count wraps for sizes below 4 bytes and is 0 for 4; `Slabs.LayoutFitsIff` gives the
  sizes that work.
- ext2 unlinking goes by inode, and compares names over the length of the first link to it only
  (`fs/ext2/dir.c:125`): if the name meant goes on, another link than the one meant is removed
  (`Ext2Directory.PrefixGoes`); if it begins otherwise, the machine stops.
- ext2 names of 255 bytes can be added, but looking one up stops the machine (`fs/ext2/node.c:75`).

## Assumptions of the models

- Recording the owner of a notifier and leaving the run queue is one step, as on one processor with
  interrupts masked in system calls; so is a notification with its wake-up, and setting or clearing a flag.
- Address spaces start from an initialised page array and use 4 KiB pages handed out by the allocator.
- Files, directories and bitmaps use 1024-byte blocks and bitmaps of one block.

## Model

| member | source | states |
|---|---|---|
| `CopyOnWrite.RunRefinesEager` | arch/amd64/mm/map.c:229-325 | Over every run of maps, unmaps, shared-memory calls, forks, loads, stores with their faults and exits, users observe exactly what they observe on a machine that copies every private page at fork, if and only if no step stores at address 0 of a page that fork left without its write bit. |
| `CopyOnWrite.StepRefines` | arch/amd64/mm/map.c:288-316 | Each single step keeps the invariant; its outcome is that of the eager machine if and only if it is not the store at address 0 of a page that was writable before a fork, and then its effect is, too. |
| `CopyOnWrite.StoreRefines` | arch/amd64/hw/exc.c:52-109 | A user store, through the fault handler where the page is not writable, has the outcome of the eager store if and only if it does not hit address 0 of a page that fork left without its write bit, and then also its effect. |
| `CopyOnWrite.FaultResolves` | arch/amd64/hw/exc.c:71-101 | A resolved write fault leaves the page writable, keeps the invariant and changes nothing that any process can read. |
| `CopyOnWrite.PokeRefines` | arch/amd64/hw/exc.c:71-101 | A store through a writable entry reaches no other private mapping: exactly the eager cell changes, or the shared frame does for all who map it. |
| `CopyOnWrite.ForkRefines` | arch/amd64/mm/map.c:288-316 | The fork loop leaves parent and child with what an immediate copy would give them. |
| `CopyOnWrite.ForkBranchesAgree` | arch/amd64/mm/map.c:302-311 | Over every run that both kernels can take, copy-on-write fork and the copying branch show users the same, if and only if no step stores at address 0 of a page that fork left without its write bit. |
| `CopyOnWrite.CopyRunIsEager` | arch/amd64/mm/map.c:288-316 | Over every run the kernel with the copying branch shows users exactly what the eager machine does, without exception. |
| `CopyOnWrite.CopyStepRefines` | arch/amd64/mm/map.c:302-316 | Each step of the copying kernel keeps the invariant and every write bit, and has the effect and outcome of the eager step. |
| `CopyOnWrite.CopyForkRefines` | arch/amd64/mm/map.c:302-316 | The copying loop leaves parent and child with what an immediate copy gives them, write permissions included. |
| `CopyOnWrite.ReadOnlyStore` | arch/amd64/hw/exc.c:71-101 | A store to a user page without the write bit succeeds, and leaves the page writable, if and only if its frame is private and the address is not 0. |
| `CopyOnWrite.ReadOnlyBecomesWritable` | arch/amd64/hw/exc.c:91-94 | A state in which a page mapped for reading only is writable after one store. |
| `CopyOnWrite.ForkLosesAddressZero` | arch/amd64/hw/exc.c:55-58 | A state, left by a fork, in which the store at address 0 is refused that the eager machine serves. |
| `CopyOnWrite.RunKeepsInv` | arch/amd64/mm/map.c:229-381 | Every run, with either branch of fork, ends in a state that keeps the invariant. |
| `CopyOnWrite.EveryReachableState` | arch/amd64/mm/map.c:229-381 | From boot on, in every reachable state, reference counts are the numbers of entries and a writable entry to a private frame is its only one. |
| `CopyOnWrite.ReleaseRefines` | arch/amd64/mm/map.c:327-381 | Releasing a space forgets its pages, and exactly the shared frames that lose their last mapping. |
| `CopyOnWrite.MunmapRefines` | sys/mem/shmem.c:140-203 | Unmapping one page forgets that page, and its shared frame if nobody else maps it. |
| `CopyOnWrite.ReleaseFrees` | arch/amd64/mm/map.c:360-368 | A frame is freed by a release exactly when its last reference went with it. |
| `CopyOnWrite.ForkReleaseConserves` | sys/process.c:211-276 | Fork followed by the release of the child restores every frame, its contents and its reference count. |
| `CopyOnWrite.ReleaseTwice` | sys/process.c:211-276 | A second release changes nothing, so no frame is freed twice. |
| `CopyOnWrite.ShowsUnique` | arch/amd64/mm/map.c:302-311 | Every kernel state stands for exactly one eager state, up to write permissions taken by fork, and for exactly one if none was taken. |
| `CopyOnWrite.ForgetRefines` | arch/amd64/mm/map.c:334-380 | Removing mappings and freeing the frames that lost their last one is forgetting in the eager machine. |
| `CopyingFork.CopyForm` | arch/amd64/mm/map.c:288-316 | What the copying loop leaves at every page and in every frame, in closed form. |
| `CopyingFork.InvCopyUpTo` | arch/amd64/mm/map.c:288-316 | Every prefix of the copying loop keeps reference counts and exclusive writable entries. |
| `AddressSpaces.InvMapFresh` | sys/mem/shmem.c:27-50 | Mapping a fresh page keeps: reference counts are the numbers of entries, and a writable private page has one entry. |
| `AddressSpaces.InvMapFrame` | sys/mem/shmem.c:226-257 | Mapping a shared frame once more keeps both. |
| `AddressSpaces.InvDrop` | sys/mem/shmem.c:165-199 | Unmapping, and freeing at count 0, keeps both. |
| `AddressSpaces.InvForkUpTo` | arch/amd64/mm/map.c:234-320 | Every prefix of the fork loop keeps both. |
| `AddressSpaces.InvReleaseUpTo` | arch/amd64/mm/map.c:334-380 | Every prefix of the release loop keeps both. |
| `AddressSpaces.WritableIsOnly` | arch/amd64/mm/map.c:288-316 | A writable entry to a private page is that page's only entry. |
| `AddressSpaces.ForkForm` | arch/amd64/mm/map.c:234-320 | What the fork loop leaves at every page of every space, in closed form. |
| `AddressSpaces.ReleaseForm` | arch/amd64/mm/map.c:334-380 | What the release loop leaves, in closed form. |
| `AddressSpaces.UnmapMapped` | arch/amd64/mm/map.c:69-210 | Unmapping a page undoes mapping it, reference count included. |
| `TableForest.IndexSplit` | arch/amd64/mm/map.c:13-17 | Splitting an address into four table indices and an offset loses nothing. |
| `TableForest.IndexJoin` | arch/amd64/mm/map.c:284-287 | Indices put together into an address split back into themselves. |
| `TableForest.WalkIndices` | arch/amd64/mm/map.c:13-17 | The indices that the walks use are the four index fields of the address. |
| `TableForest.PathPresent` | arch/amd64/mm/map.c:12-67 | A mapped page has a present table at every level of its path. |
| `PageTables.Mmu.MapGet` | arch/amd64/mm/map.c:12-67 | The four-level walk returns exactly what the flat table holds at the page. |
| `PageTables.Mmu.UmapSingle` | arch/amd64/mm/map.c:69-130 | Fails exactly on unmapped pages, and otherwise removes just that page and one reference. |
| `PageTables.Mmu.MapSingle` | arch/amd64/mm/map.c:132-210 | Adds just that page and one reference, building missing tables; fails only when no frame is free. |
| `PageTables.Mmu.Ensure` | arch/amd64/mm/map.c:145-185 | Finds or adds the next table on the path, changing no mapping. |
| `PageTables.Mmu.Enter` | arch/amd64/mm/map.c:187-205 | The present-entry panic cannot be reached; the new entry and count are those of the flat step. |
| `PageTables.CloneKernelHalf` | arch/amd64/mm/map.c:212-227 | Copies the kernel half of the top-level table and leaves the user half. |
| `PageTables.Mmu.SpaceCreate` | arch/amd64/mm/map.c:212-227 | A new space maps nothing and has a top-level table of its own, whose kernel half is a copy of the one given; all other spaces keep theirs. |
| `PageTables.Mmu.SpaceFork` | arch/amd64/mm/map.c:229-325 | The four nested loops compute the flat fork and move no table of another space; the child's kernel half is the parent's, and the parent and all others keep theirs. |
| `PageTables.Mmu.ForkTable` | arch/amd64/mm/map.c:234-320 | One nest level of those loops does the flat steps of its range of pages, in order. |
| `PageTables.Mmu.CloneLeaf` | arch/amd64/mm/map.c:288-316 | One entry of fork: write bits go on both sides exactly for writable private pages. |
| `PageTables.Mmu.SpaceRelease` | arch/amd64/mm/map.c:327-381 | The nested release loops compute the flat release, leave only the top-level table with its kernel half, and do nothing the second time. |
| `PageTables.Mmu.ReleaseTable` | arch/amd64/mm/map.c:341-377 | One nest level releases its range of pages and gives its own table back once. |
| `PageTables.Mmu.SpaceFree` | arch/amd64/mm/map.c:383-386 | After freeing, no table and no mapping of the space is left and all others stay. |
| `PageTables.Mmu.MapAnon` | sys/mem/shmem.c:38-47 | One round of an anonymous mapping is the flat step with a fresh frame. |
| `PageTables.Mmu.Munmap` | sys/mem/shmem.c:165-199 | One round of unmapping is the flat step, freeing the frame at count 0. |
| `PageTables.Mmu.PageFault` | arch/amd64/hw/exc.c:52-109 | The handler on real tables resolves, refuses or stops exactly as the flat fault does, and otherwise stops exactly when it needs a copy and no frame is free. |
| `PageTables.Mmu.CopyPage` | arch/amd64/hw/exc.c:84-90 | The copying half: a fresh private frame with the same bytes replaces the old one; it fails exactly when no frame is free. |
| `PageTables.Mmu.ClaimPage` | arch/amd64/hw/exc.c:91-94 | The last owner gets its page writable, and this cannot fail. |
| `PageTables.Mmu.UserStore` | arch/amd64/hw/exc.c:52-109 | A store with its fault on real tables is the flat store; it stops the machine exactly when that does, or when it needs a copy and no frame is free. |
| `PageTables.Mmu.VmFind` | arch/amd64/mm/vmalloc.c:8-27 | Returns the lowest fully unmapped run in the range, and nothing only when there is none. |
| `PageTables.Mmu.ForkThenExit` | sys/process.c:211-276 | Creating, forking and freeing a child restores every frame, table, kernel half and counter. |
| `PageTables.Mmu.PoolAlloc` | arch/amd64/mm/phys.c:164-174 | A table frame that was free, zeroed, changing no mapping. |
| `PageTables.Mmu.PoolFree` | arch/amd64/mm/phys.c:176-179 | Gives a table frame back. |
| `PageTables.Mmu.Follow` | arch/amd64/mm/map.c:23-50 | One level of the walk: an absent slot means the page is unmapped, a present one names the next table of the path. |
| `PageTables.Mmu.Descend` | arch/amd64/mm/map.c:23-60 | The walk to the last table, or the page is unmapped. |
| `PageTables.Mmu.Hang` | arch/amd64/mm/map.c:145-154 | A fresh, empty table under an absent slot changes no mapping. |
| `PageTables.Mmu.ForkSlot` | arch/amd64/mm/map.c:250-317 | One slot of a table in fork, absent or present, does exactly the flat steps of its range. |
| `PageTables.Mmu.ReleaseSlot` | arch/amd64/mm/map.c:341-375 | One slot of a table in release does exactly the flat steps of its range. |
| `PageTables.Mmu.ReleaseTop` | arch/amd64/mm/map.c:334-380 | One top-level slot in release, which is cleared afterwards and skipped when absent. |
| `PageTables.Mmu.DropLeaf` | arch/amd64/mm/map.c:360-368 | One entry of release: a reference less, and the frame freed at 0. |
| `PageTables.Mmu.AllocFrame` | arch/amd64/mm/phys.c:181-206 | A fresh frame belongs to no mapping and keeps whatever bytes it held. |
| `PageTables.Mmu.Fill` | arch/amd64/hw/exc.c:88-88 | Writing a frame changes its bytes only. |
| `PageTables.Mmu.MapRun` | sys/mem/shmem.c:27-138 | Maps the lowest free run in the range, each page with the flags asked for and a frame of its own that was in no use, changes no other page or frame, and finds no page present. |
| `PhysicalPages.Allocator.constructor` | arch/amd64/mm/phys.c:296-351 | After boot exactly the usable frames are free and every counter agrees. |
| `PhysicalPages.Allocator.AllocPage` | arch/amd64/mm/phys.c:181-206 | The lowest free frame, or nothing exactly when none is free; counters keep agreeing with the frames. |
| `PhysicalPages.Allocator.FreePage` | arch/amd64/mm/phys.c:208-224 | The frame is free again and the counters agree. |
| `PhysicalPages.Allocator.AllocContiguous` | arch/amd64/mm/phys.c:226-254 | For every 64-bit count: the scan stays inside the frame array if and only if the count is at most the number of frames, and then returns the lowest free window among those it looks at, which leave out the very last one, or nothing exactly when none of them is free. |
| `PhysicalPages.LastWindow` | arch/amd64/mm/phys.c:230-249 | For every count, frames of which only the last window is free, and a scan that finds nothing. |
| `PhysicalPages.CountsConserved` | arch/amd64/mm/phys.c:154-162 | Free frames and the counts of each usage always add up to the frames found at boot. |
| `PhysicalPages.Allocator.AddRefcount` | arch/amd64/mm/map.c:198-201 | A reference count changes, and no counter. |
| `PhysicalPages.Allocator.TakeRun` | arch/amd64/mm/phys.c:237-245 | Marks exactly the frames of the window. |
| `LruCache.EvictTransparent` | sys/block/cache.c:169-175 | Evicting a page changes no logical contents of the disk. |
| `LruCache.FetchTransparent` | sys/block/cache.c:198-237 | Fetching a block changes no logical contents and brings the block's own to the head. |
| `LruCache.PatchLogical` | sys/block/blk.c:155-174 | Changing the cached head page and marking it dirty changes the logical contents of exactly that block. |
| `LruCache.FlushWritesBack` | sys/block/cache.c:239-248 | Flushing makes the device equal to the logical disk and empties the queue. |
| `LruCache.TrueLru` | sys/block/cache.c:198-237 | From an empty cache, after any sequence of fetches, the cache holds exactly the most recently requested distinct blocks, most recent first, as many as it has room for. |
| `LruCache.RequestsByRecency` | sys/block/cache.c:198-237 | The queue of block addresses after any sequence of requests is the recency order, cut at the capacity. |
| `LruCache.RecencyUnique` | sys/block/cache.c:198-237 | There is only one such order. |
| `LruCache.FetchTouches` | sys/block/cache.c:198-237 | A fetch moves the queue exactly as the recency specification does. |
| `LruCache.FetchValid` | sys/block/cache.c:198-237 | A fetch keeps distinct blocks, the capacity and clean pages equal to the device. |
| `BlockRequests.RunIsLru` | sys/block/blk.c:82-186 | Over any mix of reads, writes and flushes from an empty cache, the cached blocks are exactly the most recently requested ones since the last flush, most recent first. |
| `BlockRequests.ReadTransparent` | sys/block/blk.c:89-126 | A cached read returns what the same loop reads from the logical disk, which stays. |
| `BlockRequests.WriteTransparent` | sys/block/blk.c:145-180 | A cached write changes the logical disk as the same loop changes a plain disk. |
| `BlockRequests.RunTransparent` | sys/block/blk.c:89-180 | Over every run of reads, writes and flushes the cache cannot be observed. |
| `BlockRequests.ReadExact` | sys/block/blk.c:101-119 | The loop returns the requested bytes of every disk if and only if the request is page-aligned or stays in one page. |
| `BlockRequests.WriteExact` | sys/block/blk.c:155-174 | The loop writes exactly the requested bytes under the same condition, and only then. |
| `BlockRequests.MissedRead` | sys/block/blk.c:101-119 | For every other request, a disk that it reads wrongly. |
| `BlockRequests.MissedWrite` | sys/block/blk.c:155-174 | For every request that is not served, a disk that it writes wrongly. |
| `FlatRequests.RunIsFlat` | sys/block/blk.c:82-186 | Over every run of requests that are page-aligned or stay inside one page, the cached device is one array of bytes: reads return slices of it, writes splice it, and a flush leaves the device holding it. |
| `FlatRequests.StepIsFlat` | sys/block/blk.c:82-186 | One such request on a disk of pages is that request on the array of its bytes. |
| `FlatRequests.ServedFits` | sys/block/blk.c:101-119 | Such a request makes no round past the end of the device. |
| `LinkedNodes.PushHead` | sys/block/cache.c:116-126 | Relinking a node at the head keeps the doubly linked list, with that node in front. |
| `LinkedNodes.Unlink` | sys/block/cache.c:151-167 | Relinking around a node removes just that node. |
| `LinkedNodes.PopTail` | sys/block/cache.c:128-140 | Relinking the tail removes the last node. |
| `LinkedNodes.AppendTail` | sys/block/cache.c:41-59 | Relinking at the tail of a bucket appends just that node. |
| `BlockCache.LruHash.constructor` | sys/block/cache.c:87-94 | An empty index. |
| `BlockCache.LruHash.Lookup` | sys/block/cache.c:29-39 | Finds the node of an address exactly when the index has one. |
| `BlockCache.LruHash.Insert` | sys/block/cache.c:41-59 | Adds one pair to the index. |
| `BlockCache.LruHash.Remove` | sys/block/cache.c:61-85 | Removes one pair from the index. |
| `BlockCache.LruQueue.Push` | sys/block/cache.c:116-126 | One node more in front. |
| `BlockCache.LruQueue.Erase` | sys/block/cache.c:151-167 | One node less, the others in order. |
| `BlockCache.LruQueue.Pop` | sys/block/cache.c:128-140 | The last node less. |
| `BlockCache.CachedDevice.constructor` | sys/block/cache.c:98-106 | An empty cache over a device. |
| `BlockCache.CachedDevice.Get` | sys/block/cache.c:198-237 | The linked queue, hash index and pages do what the cache value's fetch does, on a hit, a miss and an eviction. |
| `BlockCache.CachedDevice.EvictTail` | sys/block/cache.c:128-175 | Writes the tail back if dirty and drops it, as the cache value does. |
| `BlockCache.CachedDevice.MoveToHead` | sys/block/cache.c:142-167 | A hit moves its node to the front. |
| `BlockCache.CachedDevice.MarkDirty` | sys/block/cache.c:183-196 | Marks through the index exactly the node of the block just fetched. |
| `BlockCache.CachedDevice.Flush` | sys/block/cache.c:239-248 | Ends with an empty queue and the device equal to the logical disk. |
| `BlockCache.CachedDevice.Read` | sys/block/blk.c:89-126 | Returns the bytes that the cache value's read loop returns, in its state. |
| `BlockCache.CachedDevice.Write` | sys/block/blk.c:145-180 | Ends in the state of the cache value's write loop. |
| `BlockCache.CachedDevice.QueuePopTail` | sys/block/cache.c:128-140 | Queue, index and cache value all lose their last element. |
| `BlockCache.CachedDevice.PushFresh` | sys/block/cache.c:142-149 | A miss puts a fresh page in front of queue, index and cache value. |
| `BlockCache.CachedDevice.FetchPage` | sys/block/blk.c:105-111 | The page handed to the caller holds the block's logical contents, as the fetch of the cache value says. |
| `BlockCache.CachedDevice.SetPage` | sys/block/blk.c:167-167 | Copying into the head page changes just that page. |
| `BlockCache.CachedDevice.WriteRound` | sys/block/blk.c:155-174 | One round is a fetch and a patch of the cache value. |
| `RingBuffer.Readable` | sys/char/ring.c:9-17 | Counts the buffered bytes. |
| `RingBuffer.Writable` | sys/char/ring.c:19-34 | Is nonzero exactly while fewer than cap - 1 bytes are buffered. |
| `RingBuffer.PutAppends` | sys/char/ring.c:44-50 | Storing with room appends the byte. |
| `RingBuffer.PutOverflows` | sys/char/ring.c:112-114 | Storing without room would make the ring read as empty. |
| `RingBuffer.TakeRemoves` | sys/char/ring.c:36-42 | Taking removes the oldest byte. |
| `RingBuffer.CharRing.constructor` | sys/char/ring.c:134-146 | A new ring is empty. |
| `RingBuffer.CharRing.GetByte` | sys/char/ring.c:88-90 | In the real buffer, the oldest byte is returned and gone. |
| `RingBuffer.CharRing.PutByte` | sys/char/ring.c:112-114 | In the real buffer, the byte is appended. |
| `RingProtocol.InvNext` | sys/char/ring.c:61-132 | Every step of reader, writer and signaller keeps order, bounds, ownership and pending wake-ups. |
| `RingProtocol.EveryInterleaving` | sys/wait.c:19-66 | In every interleaving delivered bytes are a prefix of accepted bytes, at most cap - 1 are buffered; a reader asleep while the writer is not about to notify sees an empty ring, a writer asleep while the reader is not about to notify a full one, and neither sleeps through EOF or BRK once the signaller is done. |
| `RingProtocol.NeverStuckIff` | sys/char/ring.c:61-117 | Reader and writer never both sleep, in any run, if and only if the ring has at least two slots. |
| `RingProtocol.StuckRun` | sys/char/ring.c:61-117 | The run in which a ring of one slot stops both sides. |
| `RingProtocol.StandsStill` | sys/char/pipe.c:67-107 | A run stands still only when all are done, or a reader waits on a drained ring, or a writer on a full one, for a partner that is done. |
| `RingProtocol.DrainsBeforeFailing` | sys/char/ring.c:70-75 | The reader fails only when everything accepted has been delivered. |
| `RingProtocol.ClosedForWriting` | sys/char/ring.c:95-117 | After EOF no more bytes are accepted in any continuation. |
| `RingProgress.ComesToRest` | sys/char/ring.c:61-132 | From every reachable state of a ring of two slots or more, once every thread has had more steps than a weight of the state, all are done, or a reader waits on a drained ring, or a writer on a full one, for a partner that is done. |
| `RingProgress.FewMoves` | sys/char/ring.c:61-132 | No livelock: under every schedule at most as many steps do anything as the state they start in weighs. |
| `RingProgress.Falls` | sys/char/ring.c:61-132 | Every step of reader, writer or signaller that does anything lowers the weight. |
| `RingCalls.DeliversWrites` | sys/char/pipe.c:67-107 | The pipe is a stream: in every interleaving the bytes delivered are a beginning of the buffers of all write calls, one after the other; unless the stream has ended the rest is buffered or left to send, and between calls nothing is left. |
| `RingCalls.WriteCall` | sys/char/ring.c:119-126 | A write call sends its buffer from the front: what it has added at every moment is a beginning of the buffer and the rest is left; if it returns and the stream has not ended, it has sent everything and raised RET. |
| `RingCalls.ReadCall` | sys/char/pipe.c:80-107 | A read of n bytes delivers at most n; if it returns with fewer, the ring was empty after its last byte, and the stream had then ended or was broken, or RET was raised then or later. |
| `RingCalls.RetEndsRead` | sys/char/pipe.c:99-102 | A reader that has emptied the ring while RET is up returns within three of its steps, unless a byte comes before. |
| `RingCalls.EofIff` | sys/char/ring.c:128-132 | The stream has ended exactly if that was signalled. |
| `Ext2Layout.Stored32` | include/fs/ext2/dir.h:9-18 | A stored little-endian word reads back. |
| `Dirents.OneTiling` | fs/ext2/dir.c:34-58 | The bytes of a block determine its entries. |
| `Dirents.Replaced` | fs/ext2/dir.c:45-55 | Entries rewritten over the same bytes leave all others readable in place. |
| `Dirents.SplitTiled` | fs/ext2/dir.c:45-55 | Cutting the spare bytes off an entry and storing a new one there leaves a tiled block. |
| `Dirents.MergeTiled` | fs/ext2/dir.c:138-140 | Giving a cleared entry's bytes to the one before leaves a tiled block. |
| `Dirents.FirstTiled` | fs/ext2/dir.c:141-154 | The overlapping move of the second entry over the first leaves a tiled block. |
| `Dirents.ClearTiled` | fs/ext2/dir.c:127-136 | Clearing a block's only entry leaves one unused entry of the whole block. |
| `Ext2Directory.InsertInto` | fs/ext2/dir.c:33-58 | Succeeds in a block exactly when some entry has the spare bytes, adds exactly one link with its kind, keeps every other link and its kind, and keeps unused entries in front only. |
| `Ext2Directory.DeleteFrom` | fs/ext2/dir.c:121-159 | Finds the inode exactly when the block links it; stops the machine exactly when the name meant does not begin with that of the first link; otherwise removes exactly the first link, which is the one meant if and only if it has that very name. |
| `Ext2Directory.Directory.Insert` | fs/ext2/dir.c:12-106 | Adds exactly one link, of kind 2 for a directory and 1 otherwise where the volume records kinds, and keeps all others with theirs; grows by one block exactly when no block has room. |
| `Ext2Directory.Directory.Delete` | fs/ext2/dir.c:108-163 | Fails exactly when no link is to the inode; stops the machine exactly when the name meant does not begin with that of the first such link; otherwise removes exactly the first link, which is the one meant if and only if it has that very name. |
| `Ext2Directory.FirstLinkIff` | fs/ext2/dir.c:115-163 | There is a first link exactly when some link is to the inode, and it is one of them. |
| `Ext2Directory.FirstLinkIs` | fs/ext2/dir.c:115-163 | A link is the first if and only if no earlier one is to its inode. |
| `Ext2Directory.MeantGoes` | fs/ext2/dir.c:124-159 | The link that goes is the one meant if and only if the first to the inode has its name. |
| `Ext2Directory.PrefixGoes` | fs/ext2/dir.c:124-127 | With links a and ab to one inode, unlinking ab removes a. |
| `Ext2Directory.Directory.Find` | fs/ext2/node.c:58-115 | Succeeds exactly for names in use and gives an inode linked under the name. |
| `Ext2Directory.FindIn` | fs/ext2/node.c:84-111 | The same for one block. |
| `Ext2Directory.Directory.Readdir` | fs/ext2/node.c:207-262 | Returns the next name in use and moves past it; the assertion that an unused entry is followed by a used one never fails. |
| `Ext2Directory.Directory.Emit` | fs/ext2/node.c:247-261 | Returns the name at the position and moves to the next entry. |
| `Ext2Directory.Directory.List` | fs/ext2/node.c:207-262 | Reading from 0 ends after listing every name in use exactly once, in order. |
| `Ext2Directory.LookupInserted` | fs/ext2/dir.c:12-163 | An added link is found under its name and no other lookup changes; a removed one is no longer found. |
| `Ext2Directory.LookupIff` | fs/ext2/node.c:77-115 | Lookup fails exactly for names not in use. |
| `Ext2Groups.NumberInverse` | fs/ext2/alloc.c:86-94 | A number made from group and offset gives them back. |
| `Ext2Groups.PairInverse` | fs/ext2/alloc.c:178-180 | Group and offset of a number make the number again. |
| `Ext2Groups.TotalCounts` | fs/ext2/alloc.c:111-117 | The superblock count is the number of free numbers. |
| `Ext2Groups.MarkedAgrees` | fs/ext2/alloc.c:188-202 | Setting or clearing a bit keeps bitmaps and both counters in agreement if and only if the bit was the other way: freeing twice breaks them. |
| `Ext2Groups.FirstZero` | fs/ext2/alloc.c:86-94 | The inner scan finds the first zero bit. |
| `Ext2Groups.GroupTable.Alloc` | fs/ext2/alloc.c:67-123 | Returns nothing exactly when nothing is free, else the first free number of the last group that has one; the bitmap written back is that group's and all counters keep agreeing. Inodes are allocated by the same scheme (lines 8-64) with a count of directories. |
| `Ext2Groups.GroupTable.Release` | fs/ext2/alloc.c:125-206 | Bitmaps and counters agree afterwards if and only if the number was in use, and then exactly that number is free again; inodes of directories also leave the directory count. |
| `Ext2Files.Ext2File.GetIndex` | fs/ext2/block.c:124-144 | Returns the block that the map names at an index. |
| `Ext2Files.Ext2File.SetIndex` | fs/ext2/block.c:165-188 | Changes the map at one index only, taking an indirect block when it needs one and has none. |
| `Ext2Files.Ext2File.AppendBlock` | fs/ext2/alloc.c:221-228 | One growing round: a block that was free, used nowhere else, is the file's next block. |
| `Ext2Files.Ext2File.FreeBlock` | fs/ext2/alloc.c:231-236 | One shrinking round: the block is free again and no other index changes. |
| `Ext2Files.Ext2File.Grow` | fs/ext2/alloc.c:220-228 | Growing succeeds exactly when the volume has the blocks, and writes no data block. |
| `Ext2Files.Ext2File.Shrink` | fs/ext2/alloc.c:229-243 | Shrinking gives every dropped block back; the file is in order afterwards if and only if it needs no indirect block or had none. |
| `Ext2Files.Ext2File.Resize` | fs/ext2/alloc.c:208-259 | File blocks and free blocks together never change as a set, no block serves twice, the common prefix stays, no other block is written; the file stays in order if and only if it does not shrink to more than 12 blocks. |
| `Ext2Files.CutToThirteen` | fs/ext2/alloc.c:229-243 | A file of fourteen blocks cut to thirteen is out of order. |
| `Ext2Files.Ext2File.GrowThenTruncate` | fs/ext2/alloc.c:208-259 | Growing an empty file succeeds exactly when the volume has the blocks, and truncating it restores the free blocks and their count. |
| `Ext2Files.Ext2File.Read` | fs/ext2/node.c:129-171 | Returns the slice of the file's bytes, cut at its end. |
| `Ext2Files.Ext2File.ReadChunk` | fs/ext2/node.c:153-168 | One round returns the bytes of one block. |
| `Ext2Files.Ext2File.Write` | fs/ext2/node.c:322-388 | Succeeds exactly when the volume has the blocks that the new size needs, or there is nothing to do; at or before the end, writing gives old[..pos] + buf + the rest of old; past the end nothing happens; no other file's block changes. |
| `Ext2Files.Ext2File.WriteChunk` | fs/ext2/node.c:354-379 | One round changes exactly its bytes of the file. |
| `Ext2Files.Ext2File.FreeTail` | fs/ext2/alloc.c:229-236 | The shrinking loop frees each block beyond the new count once and keeps the pointers below it. |
| `KernelHeap.Heap.constructor` | arch/amd64/mm/heap.c:65-84 | One free block fills the heap, whose size fits the 32-bit field of its header. |
| `KernelHeap.Heap.Alloc` | arch/amd64/mm/heap.c:87-131 | For every 64-bit request: the heap stays in order if and only if it is not one for which the room for the header wraps while a free block of 8 bytes exists; then no list of addresses makes what is left a heap.  Otherwise it fails exactly when no free block fits by the rule of the code; else it takes the first that does, adds exactly one used block and moves no other, and the block has the bytes asked for exactly up to 2^64 - 32. |
| `KernelHeap.Heap.Free` | arch/amd64/mm/heap.c:133-189 | Removes exactly one used block and its bytes from those in use, moves no other, and merges so that no two neighbours are free. |
| `KernelHeap.Heap.Stat` | arch/amd64/mm/heap.c:41-63 | The bytes in use are the sizes of the used blocks together, the free bytes those of the others, and the count is the number of used blocks; with one header per block they make up the heap. |
| `KernelHeap.TakenMore` | arch/amd64/mm/heap.c:101-127 | One block more in use adds exactly its bytes to those in use. |
| `KernelHeap.TakenLess` | arch/amd64/mm/heap.c:160-189 | One block less in use takes exactly its bytes from those in use. |
| `KernelHeap.AllFree` | arch/amd64/mm/heap.c:65-84 | When nothing is in use the heap is the single initial block again. |
| `KernelHeap.Disjoint` | arch/amd64/mm/heap.c:95-131 | Blocks never overlap and stay inside the heap. |
| `KernelHeap.RoundedExact` | arch/amd64/mm/heap.c:92-110 | The 64-bit rounding and header arithmetic is exact if and only if the request is at most 2^64 - 32. |
| `KernelHeap.RoundedWraps` | arch/amd64/mm/heap.c:92-110 | Requests within 32 bytes of 2^64 are rounded to 2^64 - 16 or to nothing. |
| `KernelHeap.LargestRequest` | arch/amd64/mm/heap.c:92-93 | A request for 2^64 - 1 bytes is rounded to none. |
| `KernelHeap.CollidedBroken` | arch/amd64/mm/heap.c:110-125 | A header written 8 bytes into the old one leaves no heap, whatever else is there. |
| `KernelHeap.SmallestCollision` | arch/amd64/mm/heap.c:110-125 | A heap of one free 8-byte block that grants 2^64 - 16 bytes and is none afterwards. |
| `KernelHeap.CutSound` | arch/amd64/mm/heap.c:110-125 | Splitting a block keeps tiling and links. |
| `KernelHeap.JoinSound` | arch/amd64/mm/heap.c:169-186 | Merging a block with the next keeps tiling and links. |
| `Slabs.LayoutFits` | sys/mem/slab.c:49-60 | Descriptor, links, 8-byte padding and objects fit in a page for every object size that yields an object without wrapping. |
| `Slabs.LayoutFitsIff` | sys/mem/slab.c:49-60 | The layout fits if and only if the object size is from 5 to 2028 bytes; below, the object count wraps or is 0. |
| `Slabs.AddressInverse` | sys/mem/slab.c:165-178 | Page and object number are recovered from an object's address, which never starts a page. |
| `Slabs.PopChain` | sys/mem/slab.c:115-131 | Taking the head leaves a chain of exactly the other unused objects. |
| `Slabs.PushChain` | sys/mem/slab.c:176-182 | Giving an object back puts exactly that object on the chain. |
| `Slabs.Fresh` | sys/mem/slab.c:83-107 | A new slab's chain lists every object. |
| `Slabs.SlabCache.constructor` | sys/mem/slab.c:49-60 | A cache with no slab. |
| `Slabs.SlabCache.Calloc` | sys/mem/slab.c:133-163 | Hands out an object that was not in use, and fails exactly when it needs a page and none is free; free pages and slabs together stay the same set, and the slabs are exactly the pages of the objects in use. |
| `Slabs.SlabCache.AllocFrom` | sys/mem/slab.c:115-131 | A slab is on the full list exactly from its last object on. |
| `Slabs.SlabCache.Free` | sys/mem/slab.c:165-192 | Exactly that object is no longer in use; free pages and slabs together stay the same set, and the page goes back if and only if no other object of it is in use. |
| `Slabs.SlabCache.HoldsUsed` | sys/mem/slab.c:182-187 | A cache holds exactly the pages of its objects in use, none of them free, and none at all when no object is in use. |
| `Slabs.SlabCache.Create` | sys/mem/slab.c:83-107 | Takes one page, exactly when one is free, and makes it a slab with no object in use. |
| `Slabs.SlabCache.Stat` | sys/mem/slab.c:194-221 | The assertions never fire, and the totals are the objects in use and the slabs. |
| `KernelPages.TakePage` | arch/amd64/mm/phys.c:181-206 | One free page becomes a kernel page. |
| `KernelPages.GivePage` | arch/amd64/mm/phys.c:208-224 | A kernel page becomes free again. |
| `RamIndex.PutTableAt` | fs/ram.c:203-219 | Storing into an L1 slot changes that slot of the flat index and no other. |
| `RamIndex.GrowTable` | fs/ram.c:137-155 | A newly available slot reads as available whatever was left in it. |
| `RamIndex.ShrinkDone` | fs/ram.c:116-129 | After shrinking, the index is the flat index of the smaller capacity, stale slots and all. |
| `RamFiles.RamFile.constructor` | fs/ram.c:52-80 | An empty file owns no page. |
| `RamFiles.RamFile.AddSlot` | fs/ram.c:132-156 | One more slot is available; it takes a page exactly when a new L1 page is needed. |
| `RamFiles.RamFile.SetSlot` | fs/ram.c:189-222 | The slot was available and empty; it now holds the page and no other slot changes. |
| `RamFiles.RamFile.GetSlot` | fs/ram.c:165-187 | Returns the page of the flat index. |
| `RamFiles.RamFile.Grow` | fs/ram.c:392-408 | Succeeds exactly when the allocator has the pages; every new slot gets a page of its own. |
| `RamFiles.RamFile.FreeBlocks` | fs/ram.c:94-114 | Frees each dropped block once. |
| `RamFiles.RamFile.FreeTables` | fs/ram.c:116-129 | Frees each dropped L1 page once. |
| `RamFiles.RamFile.Shrink` | fs/ram.c:82-163 | File pages and free pages together stay the same set; the kept blocks stay. |
| `RamFiles.RamFile.Truncate` | fs/ram.c:528-561 | Growing succeeds exactly when the allocator has the pages; keeps the common prefix; at size 0 every page is free again. |
| `RamFiles.RamFile.Read` | fs/ram.c:335-375 | Returns the slice of the file's bytes, cut at its end. |
| `RamFiles.RamFile.ReadChunk` | fs/ram.c:355-372 | One round returns the bytes of one block. |
| `RamFiles.RamFile.Write` | fs/ram.c:377-431 | Succeeds exactly when the allocator has the pages that the new size needs; writing at or before the end gives old[..pos] + buf + the rest of old. |
| `RamFiles.RamFile.WriteChunk` | fs/ram.c:412-428 | One round changes exactly its bytes. |
| `RamFiles.RamFile.NeedTable` | fs/ram.c:141-147 | Takes an L1 page exactly when the next slot's is missing, and moves no other slot. |
| `PathNames.ElementSplits` | fs/vfs.c:138-157 | The path is its first element, slashes, and the rest, which starts with an element again. |
| `PathNames.ElementsSpell` | fs/vfs.c:138-157 | The elements of a path are the one list of slash-free names that spells it with slashes between them. |
| `PathNames.ElementJoin` | fs/vfs.c:138-157 | Splitting off the first element undoes joining ordinary names. |
| `Vnodes.RoundTrip` | fs/vfs.c:107-136 | Resolving the printed path of a node returns the node, across any nesting of mounts. |
| `Vnodes.Descend` | fs/vfs.c:250-368 | The same for every suffix of the way down. |
| `Vnodes.EntryListed` | fs/vfs.c:458-470 | A node on the way is listed under its parent itself, or by the mount point whose name it shows. |
| `Vnodes.Vfs.Attach` | fs/node.c:37-45 | The child becomes the first of its parent's list and no other vnode changes its parent, kind, target or name; the tree stays a tree if and only if the child is neither mount point nor mounted root and the parent is not the child or below it. |
| `Vnodes.Vfs.Detach` | fs/node.c:47-72 | The child leaves its parent's list, the others in order, and no other vnode changes its parent, kind, target or name; the machine stops exactly on a mounted root; otherwise the tree stays a tree if and only if no mount point was detached. |
| `Vnodes.Vfs.LookupChild` | fs/node.c:83-97 | Returns the first child with the name, or none. |
| `Vnodes.Vfs.Mount` | fs/vfs.c:421-480 | Busy and not-a-directory are refused; otherwise crossing the mount point leads to the root given; the links agree afterwards if and only if that root was mounted nowhere, and a tree results if and only if moreover the mount point does not lie below it. |
| `Vnodes.AttachSoundIff` | fs/node.c:37-45 | Attaching gives a tree if and only if the child is neither mount point nor mounted root and the parent is not the child or below it. |
| `Vnodes.MountSoundIff` | fs/vfs.c:421-480 | Mounting any vnode on any directory gives a tree if and only if it is a directory with neither parent nor mount point and the mount point does not lie below it. |
| `Vnodes.MountedTwice` | fs/vfs.c:458-470 | A root that is mounted on a second directory: both lead to it, it leads back to the second only, and the tree is none. |
| `Vnodes.DetachSoundIff` | fs/node.c:47-72 | Detaching a listed vnode gives a tree if and only if it is no mount point. |
| `Vnodes.SelfAttached` | fs/node.c:37-45 | A vnode attached to itself: all links agree and the tree is none. |
| `Vnodes.WayUp` | fs/vfs.c:107-136 | From every node of a tree the way up ends at a node without parent. |
| `Vnodes.Vfs.FindInternal` | fs/vfs.c:250-368 | A path means what its elements say, one by one: "." the directory itself, ".." its parent or itself at the top, a name the first child of that name, mount points crossed in between; the walk finds a node if and only if that trail ends there, and otherwise reports the first element at which it cannot go on. |
| `Vnodes.Vfs.FindPath` | fs/vfs.c:524-563 | Absolute paths start at the root, others at the given node, the working directory or the root; the answer is what the path means from there, with a mount point at the end crossed. |
| `Vnodes.FindMeans` | fs/vfs.c:250-368 | Resolution gives the one meaning that a path has, for every tree, start and path. |
| `Vnodes.OneEnd` | fs/vfs.c:250-368 | A path has at most one meaning. |
| `Vnodes.Vfs.VnodePath` | fs/vfs.c:107-136 | Prints the path of a node at most sixteen levels down. |
| `RunQueues.CircleInsert` | sys/sched.c:59-66 | Relinking between tail and head keeps the circle. |
| `RunQueues.CircleRemove` | sys/sched.c:145-155 | Relinking around a thread keeps the circle of the others. |
| `RunQueues.Installed` | sys/sched.c:46-75 | A change to one processor's queue leaves every other queue alone, and links are null exactly for unqueued threads. |
| `RunQueues.Scheduler.QueueTo` | sys/sched.c:46-75 | Puts an unqueued thread just before the head, which stays unless the queue was empty, and does nothing to a queued one; sizes and links keep agreeing. |
| `RunQueues.Scheduler.Unqueue` | sys/sched.c:104-162 | Takes exactly that thread off; the next of the circle runs if it was running, and is the head if it was the head. |
| `RunQueues.Scheduler.Yield` | sys/sched.c:301-331 | Runs the next thread of the circle, or the head when idle, or nothing when the queue is empty; the head stays. |
| `RoundRobin.Fair` | sys/sched.c:301-331 | Between two selections of a thread that stays queued, every other thread that stays queued is selected exactly once, whoever leaves. |
| `RoundRobin.NoStarvation` | sys/sched.c:301-331 | A thread that stays queued is selected within as many ticks as there are threads, whoever leaves. |
| `RoundRobin.UnqueueIsLeave` | sys/sched.c:104-162 | What sched_unqueue makes of the order of a busy processor is the event of the thread leaving. |
| `RoundRobin.Round` | sys/sched.c:104-162 | At every moment in between, the threads split into those selected once and those still waiting. |

## Left out

- TLB flushes, CR3 loads, context switches and signal delivery: they have no effect on the states here.
- Huge pages, device-mapped frames, the kernel half of the tables beyond copying it, and memory-map parsing.
- The `PG_MMAPED` panic of `sys_munmap`: copied pages do not carry the flag, so the panic is not claimed unreachable.
- Reference counts and block numbers wider than their C fields: counts are unbounded integers.
- `vmfree`, the shared-memory chunk list, the global list of caches, `blk_sync_all`, and requests that bypass the cache.
- Short device reads: the device always delivers full pages.
- Non-blocking ring writers, reads with `err` set, and several readers or writers on one ring.
- ext2 L2 and L3 indirection, which the code refuses, inode tables, timestamps and ownership.
- ext2 directories stored through files: the directory's blocks are a sequence, growing by one block.
- `vfs_umount`, symbolic links, per-process links and loading vnodes from storage: resolution reports a link and goes no further.
- Tar-backed ramfs blocks, which the file does not own, and the zeroing of slab objects, whose contents are not modelled.
- Choosing the least loaded processor in `sched_queue`, and unqueueing from another processor.
- Drivers, network, sysfs, devfs, terminals, the loader and system-call dispatch: they move data between the structures modelled here.
- Ext2Directory.Directory.Insert: takes names of up to 255 bytes, since the name length is stored in one byte, and grows by appending a block instead of resizing the directory's inode.
- PathNames.ElementSplits: names of 64 bytes or more, on which the code asserts, are cut like any other.
- PhysicalPages.Allocator.constructor: is given the usable frames, because the memory map is not parsed here.
- Slabs.SlabCache.constructor: takes the object sizes for which the layout fits; the code creates caches of 16 to 512 bytes only.
- Vnodes.Vfs.FindInternal: looks names up among the vnodes in memory and reports a symbolic link instead of following it.
- Vnodes.Vfs.FindPath: reports a symbolic link instead of following it.
