# Verified models of the AscentOS kernel

This project models the parts of the AscentOS kernel where a simple meaning is kept by an intricate
structure updated in place, and proves that the structure keeps the meaning.

- **Copy-on-write memory** (`CopyOnWrite`, `EagerClone`, `ForkFailure`, `Vmm`). Processes, private and shared regions, page mappings,
  frame contents and 16-bit reference counts. Every run of forks, stores with their faults, demand-zero
  faults, unmappings and exits shows each process exactly what it would see had fork copied every page up
  front, with the same successes and refusals, and every count equals the number of mappings. Pages of shared
  and device memory are part of the comparison: a store to one is seen through every page that has its frame.
  `EagerClone` is the clone that does copy, `ForkFailure` a fork that runs out of frames, and `Vmm` the code that updates this
  state in place.
- **Page tables** (`PageTable`, `Paging`). Four levels of 512 entries. Mapping or unmapping a page changes
  the translation of that page alone, over all address spaces; empty tables are freed, none is lost.
- **Physical page allocator** (`Buddy`, `FreeLists`, `Bitmap`, `Pmm`). Binary buddy blocks, bitmaps, list
  nodes kept inside free pages, reference counts, and the carving of the memory map at boot.
- **Memory regions of a process** (`AvlTree`, `VmaNodes`, `Regions`, `RegionTree`, `Protection`, `AddressSpace`). An AVL interval tree,
  as a value and as nodes changed through pointers, and the list of regions as a map from address to
  protection, flags, file and file position.
- **Object caches** (`Slab`). The free, partial and full slabs of one cache.
- **ext2 files** (`BlockTree`, `BlockMap`, `FileData`, `Ext2`). Direct and indirect block pointers in disk
  blocks, allocation by block groups, and byte-level reads and writes.
- **ext2 directories** (`Directory`, `DirFile`). Record chains in blocks of bytes as a list of names.
- **ext3 journal** (`Journal`, `JournalDevice`). One-transaction redo logging with a crash possible between
  any two block writes, also during recovery.
- **Pseudoterminals** (`Ring`, `Pty`, `PtyWake`, `SlaveWake`, `WriterWake`). Ring buffers, the line discipline, and the
  blocking protocols of master readers, slave readers and slave writers, one per wait queue, as state machines
  over the steps between lock operations.
- **Run queue** (`RunQueue`). The circular list of threads and the choice of the next one.

`Basics` holds the few notions shared by the models.

Code that changes memory step by step is a class whose methods have the source's branches and loops; each
method's contract gives the new state as a function of the old one, or states outright what the source
promises, and the lemmas about those functions are the laws. Where the code does not meet the law one would
expect, one lemma shows a case and another member says exactly when the law holds:

| law | case | exactly when |
|---|---|---|
| a page stays private through mprotect | `MprotectLeaks` | `MprotectKeepsInvIff` |
| counts equal mappings | `UndercountLeaks` | `CountExactIff` |
| the two clones agree | `EagerUnshares`, `StoreTellsApart` | `CowForkIsEagerFork` |
| the eager clone keeps the counts | `SharedCopyUnpinned` | `EagerForkInvIff` |
| munmap keeps the counts | `UncoveredLeaks` | `MunmapRangeCorrect` |
| a failed fork leaves no trace | `FailedForkLeaks` | `FailedForkExactIff` |
| no table is left empty | `FailedMapLeavesTable` | `PageTable.MapPage` |
| boot leaves merged lists | `AdjacentRegionsStraddle`, `UnmergedHidesRun` | `CoalescedIff`, `BlockForRun` |
| a range search finds free pages | `RangeMissesStraddlers` | `PageAllocator.AllocRange` |
| unmapping removes exactly the range | `ReversedRemoveLoses` | `RemoveExactIff` |
| mprotect reaches the whole range | `MprotectSkips` | `ReachedIff`, `OnePastGapSuffices` |
| a gap lies below the limit | `GapOversteps`, `GapWraps` | `FindGapExactIff`, `FindGapSafe` |
| a read is clamped at the end of file | `ReadWraps` | `ReadLengthIff` |
| a name is stored as given | `LongNameLost` | `StoredIff` |
| a transaction is crash atomic | `DirtyStartTears`, `StaleHeaderTears` | `AtomicIff` |
| no wake-up of a slave reader is lost | `RawSwitchStrands` | `SlaveWake.StepKeepsIff` |
| no wake-up of a slave writer is lost | `CloseStrands` | `WriterWake.StepKeepsIff` |

The last clauses of `PageAllocator.Incref`, `PageAllocator.FreePagesAt`, `VmaList.Add` and `WriteFile` (through
`ReadBack`) are of the same kind.

`dafny verify dfyconfig.toml` checks everything.

## Model

| member | source | states |
|---|---|---|
| `CopyOnWrite.RunIsEager` | kernel/src/mm/vmm.c:575-1138 | over every run of forks, stores, touches, mappings, unmappings and exits in which each access that takes a frame finds one, all private pages hold what they would on a machine whose fork copies every page, all shared and device pages hold the last bytes stored through any page with the same frame, and each event succeeds if and only if it would there |
| `CopyOnWrite.RunRefinesEager` | kernel/src/mm/vmm.c:575-698 | over every run, also one that runs out of frames, the contents seen are those of that machine given the same outcomes, and the invariant holds |
| `CopyOnWrite.StepSucceeds` | kernel/src/mm/vmm.c:933-1138 | each of the six events takes effect if and only if the machine that copies allows it and the frame it takes, if it takes one, can be had |
| `CopyOnWrite.CountsExact` | kernel/src/mm/vmm.c:605-622 | in every reachable state a managed frame's count is the number of private mappings of it, a writable private frame has one, and a frame is free exactly when none is left |
| `EagerClone.CowForkIsEagerFork` | kernel/src/mm/vmm.c:460-561 | copy-on-write fork and the eager clone in the same file leave all processes with the same pages, the same contents and rights, and the same pages being one memory, if and only if every page the parent maps is private, neither of a shared region nor device memory; contents and rights by themselves agree at once in any case |
| `EagerClone.ClonesStayAlike` | kernel/src/mm/vmm.c:460-698 | when they are all private, no later run in which both find the frames they take tells the two clones apart, in contents of any page or outcome of any event |
| `EagerClone.StoreTellsApart` | kernel/src/mm/vmm.c:480-499 | with a writable page that is not private one store does: the parent reads the byte the child stores after copy-on-write fork, and its own after the eager clone |
| `EagerClone.SamePrivateMemoryIff` | kernel/src/mm/vmm.c:480-499 | the private memory of all processes, contents of shared and device pages left aside, is the same after both if and only if the parent maps no device page outside its shared regions |
| `EagerClone.EagerForkInvIff` | kernel/src/mm/vmm.c:460-561 | the eager clone keeps the counting invariant if and only if the parent maps no page of a shared region |
| `EagerClone.SharedCopyUnpinned` | kernel/src/mm/vmm.c:480-499 | the copy of such a page is a counted frame that nobody counts |
| `EagerClone.EagerForkCopies` | kernel/src/mm/vmm.c:460-561 | the eager clone gives the child a copy of every page, private or shared, in a frame of its own and leaves all other entries and their bytes alone |
| `EagerClone.EagerUnshares` | kernel/src/mm/vmm.c:480-499 | a page of shared or device memory has one frame in parent and child after copy-on-write fork and two after the eager clone |
| `CopyOnWrite.ForkCorrect` | kernel/src/mm/vmm.c:645-698 | fork keeps the invariant and gives the child exactly the parent's view, leaving every other process alone |
| `CopyOnWrite.ForkFromInv` | kernel/src/mm/vmm.c:575-643 | the walk from any entry on keeps the invariant and ends with the child mirroring the parent |
| `CopyOnWrite.ForkFromView` | kernel/src/mm/vmm.c:575-643 | and changes what no process but the child sees |
| `CopyOnWrite.ForkPageInv` | kernel/src/mm/vmm.c:605-622 | sharing one page, write-protected in both, keeps counts exact and writable pages unshared |
| `ForkFailure.FailedForkExactIff` | kernel/src/mm/vmm.c:575-676 | a fork that runs out of table frames changes no process's memory, and leaves the counts exact if and only if it had met no private page |
| `ForkFailure.FailedForkLeaks` | kernel/src/mm/vmm.c:622-643 | a frame such a fork has met is not given back when its last mapping goes |
| `ForkFailure.StripStep` | kernel/src/mm/vmm.c:605-643 | what an abandoned child leaves behind is one aborted step per page walked |
| `CopyOnWrite.ExitCorrect` | kernel/src/mm/vmm.c:803-891 | teardown removes exactly that process and returns exactly the frames nobody else maps |
| `CopyOnWrite.MunmapCorrect` | kernel/src/syscalls/sys_mm.c:82-104 | unmapping one page of a region forgets exactly that page |
| `CopyOnWrite.MunmapRangeCorrect` | kernel/src/syscalls/sys_mm.c:82-104 | the loop over a range forgets exactly the pages of the range, covered by a region or not, and keeps the counts exact if and only if no counted page of it lies in a file-backed region or in none |
| `CopyOnWrite.OrphanLeaks` | kernel/src/syscalls/sys_mm.c:94-104 | the frame of such a page stays allocated with a count too high |
| `CopyOnWrite.UncoveredLeaks` | kernel/src/syscalls/sys_mm.c:82-104 | a process with one page that no region covers is left with a frame that nothing maps and that is not free |
| `CopyOnWrite.CowFaultCorrect` | kernel/src/mm/vmm.c:933-993 | a write fault on a shared page changes no process's view and leaves the page writable by its owner alone |
| `CopyOnWrite.DemandCorrect` | kernel/src/mm/vmm.c:1090-1138 | the first touch of an anonymous page shows zeros there and nothing else changes; without frames for page and tables no process sees a change |
| `CopyOnWrite.StoreCorrect` | kernel/src/mm/vmm.c:933-993 | a store with the faults it takes changes exactly the stored byte: of the storing process alone for a private page, of every page with that frame for a shared or device page |
| `CopyOnWrite.StoreSucceeds` | kernel/src/mm/vmm.c:933-1138 | a store succeeds if and only if the eager machine would allow it and the frame it takes, if it takes one, can be had, on private, shared and device pages alike |
| `CopyOnWrite.FaultHandledIff` | kernel/src/mm/vmm.c:933-1138 | a fault on an absent page is handled if and only if the eager machine allows the read or write and there are frames for page and tables; one on a write-protected page if and only if it is a write, the page is copy-on-write, and there is a frame if others map its frame |
| `CopyOnWrite.ReturnedFrame` | kernel/src/mm/vmm.c:1126-1135 | a frame taken and given back because a table could not be had leaves counts, free frames and contents as they were |
| `CopyOnWrite.InstallInv` | kernel/src/mm/vmm.c:1111-1138 | backing a page with a free frame keeps the invariant and every other page |
| `CopyOnWrite.DropFrame` | kernel/src/mm/pmm.c:559-579 | dropping a mapping keeps the frame's count exact and frees the frame if and only if that was the last one |
| `CopyOnWrite.StepCorrect` | kernel/src/mm/vmm.c:575-993 | each operation keeps the invariant and is simulated by its eager counterpart |
| `CopyOnWrite.SharersBound` | kernel/src/mm/pmm.c:547-557 | a frame has at most one mapping per process, so the number of processes bounds the count |
| `CopyOnWrite.CountExactIff` | kernel/src/mm/pmm.c:547-557 | sharing one more mapping keeps the 16-bit count exact if and only if the frame then has fewer than 65536 mappings |
| `CopyOnWrite.UndercountLeaks` | kernel/src/mm/vmm.c:963-991 | with an undercounted frame one process's store shows up in another |
| `CopyOnWrite.WritableAliasLeaks` | kernel/src/mm/vmm.c:605-622 | a store through a writable mapping of a shared frame shows up in every other mapping of it, so fork must take write access away |
| `CopyOnWrite.MprotectKeepsInvIff` | kernel/src/syscalls/sys_mm.c:440-454 | re-protecting a private page keeps the sharing invariant if and only if it is not made writable or is mapped once |
| `CopyOnWrite.MprotectLeaks` | kernel/src/syscalls/sys_mm.c:440-454 | made writable while shared, a store through one mapping shows up in the other |
| `CopyOnWrite.MprotectShows` | kernel/src/syscalls/sys_mm.c:440-454 | mprotect gives that page exactly the rights asked for, keeps its contents and frame, and changes no other page |
| `VirtualMemory.Vmm.CloneUserMappings` | kernel/src/mm/vmm.c:575-698 | the loop over all entries keeps the invariant and gives the child exactly the parent's memory; when the table frames run out no process sees a change, and the counts stay exact if and only if no private page was walked |
| `VirtualMemory.Vmm.FreeUserPages` | kernel/src/mm/vmm.c:803-891 | the teardown loop keeps the invariant and removes exactly that process from the machine that copies |
| `VirtualMemory.Vmm.HandlePageFault` | kernel/src/mm/vmm.c:914-1138 | a fault on an absent page is handled if and only if the machine that copies allows the access and the frame it takes can be had, one on a page without write access if and only if it is a write to a copy-on-write page and the frame it takes, if any, can be had; a handled fault shows at most a new zero page, keeps counts exact, and after a write fault the page is writable; a refused one changes no entry, count or free frame |
| `VirtualMemory.Vmm.StoreByte` | kernel/src/mm/vmm.c:914-993 | a store with its faults changes exactly one byte, of one process or of one shared memory, keeps counts exact, and succeeds if and only if the machine that copies allows it and the frame it takes, if any, can be had |
| `PageTable.MapPage` | kernel/src/mm/vmm.c:137-192 | of all user pages of all address spaces exactly the mapped one changes, to the new entry with exactly its rights, if and only if there are as many free frames as tables missing on the way; otherwise none changes; no frame is lost; from tables none of which is empty it leaves none empty if and only if it succeeded or there was no free frame at all |
| `PageTable.FailedMapLeavesTable` | kernel/src/mm/vmm.c:106-135 | without a frame for the second missing table the first stays linked and empty |
| `PageTable.UnmapPage` | kernel/src/mm/vmm.c:311-364 | exactly the unmapped page changes, every table that became empty is back with the allocator, no frame is lost |
| `PageTable.UnmapEffect` | kernel/src/mm/vmm.c:330-351 | the page is unmapped afterwards if and only if it was not part of a huge page |
| `PageTable.MapUnmap` | kernel/src/mm/vmm.c:137-364 | with frames for the missing tables, mapping an unmapped page and unmapping it restores every translation and keeps the frames and tables accounted for |
| `PageTable.MapTree` | kernel/src/mm/vmm.c:106-192 | the law of mapping below any table of any level |
| `PageTable.UnmapTree` | kernel/src/mm/vmm.c:238-309 | the law of unmapping and of releasing empty tables below any table |
| `PageTable.PathInjective` | kernel/src/mm/vmm.c:143-146 | different pages have different table indices |
| `PageTable.PathSpells` | kernel/src/mm/vmm.c:143-146 | the four indices of a page of the 48-bit address space, top-level table first, are the base-512 digits of its number |
| `PageTable.SpelledPath` | kernel/src/mm/vmm.c:143-146 | and any four indices are those of the page whose number they spell |
| `PageTable.SharedPrefix` | kernel/src/mm/vmm.c:432-445 | pages have their first three, or two, indices in common if and only if they lie in one aligned two megabytes, or gigabyte |
| `Paging.PageTables.GetNextLevel` | kernel/src/mm/vmm.c:106-135 | the next table and its entry's rights, allocated and zeroed if missing |
| `Paging.PageTables.MapPage` | kernel/src/mm/vmm.c:137-192 | the four levels spelled out, by the digits of the page number, are the recursive mapping |
| `Paging.PageTables.IsEmpty` | kernel/src/mm/vmm.c:263-270 | the scan finds whether any entry is present |
| `Paging.PageTables.FreeEmptyTables` | kernel/src/mm/vmm.c:238-309 | tables are unlinked and freed upwards until one is not empty |
| `Paging.PageTables.UnmapPage` | kernel/src/mm/vmm.c:311-364 | the four levels spelled out, by the digits of the page number, are the recursive unmapping |
| `Paging.PageTables.Translate` | kernel/src/mm/vmm.c:412-449 | finds the entry and level of the walk, or that there is none |
| `Paging.PageTables.VirtToPhys` | kernel/src/mm/vmm.c:412-451 | the physical address is the aligned address of the page found plus the offset, 0 if there is none |
| `Paging.PhysicalLinear` | kernel/src/mm/vmm.c:432-450 | addresses behind one entry keep their distance and their offset, also in huge pages |
| `Paging.PhysicalPage` | kernel/src/mm/vmm.c:432-450 | the physical page is the one the entry names; for a huge page the address lies in the aligned page that holds it, at the same offset |
| `Paging.HugePageLinear` | kernel/src/mm/vmm.c:412-451 | all addresses of the page, two megabytes or gigabyte around a mapped address are translated by the same entry, at the same distance |
| `Buddy.RunRestores` | kernel/src/mm/pmm.c:143-176 | over every run of allocations and releases the free blocks partition the pages not lent; if they were merged at the start they stay so, and are those of the start whenever everything has come back |
| `Buddy.FreeListsDetermined` | kernel/src/mm/pmm.c:143-176 | the set of free pages alone determines the free blocks |
| `Buddy.CoalesceCorrect` | kernel/src/mm/pmm.c:149-171 | merging keeps disjoint aligned blocks and adds exactly the freed pages, and leaves no two free buddies if there were none |
| `Buddy.SplitCorrect` | kernel/src/mm/pmm.c:377-384 | splitting hands out one block of the wanted order and puts all other pages back, with no two free buddies if there were none |
| `Buddy.Contained` | kernel/src/mm/pmm.c:350-370 | an aligned run of free pages lies inside one free block when the blocks are merged |
| `Buddy.ReleaseRestores` | kernel/src/mm/pmm.c:350-396 | releasing what an allocation split off restores the free blocks |
| `Buddy.LendSound` | kernel/src/mm/pmm.c:350-396 | a block that is handed out was on loan to nobody |
| `Buddy.CoalescedIff` | kernel/src/mm/pmm.c:273-343 | regions carved apart are fully merged if and only if no aligned free run straddles two of them |
| `FreeLists.XorSibling` | kernel/src/mm/pmm.c:150 | flipping the order's bit of a head gives the head of its buddy |
| `FreeLists.SiblingTest` | kernel/src/mm/pmm.c:160-165 | the order and links read from a free page say that its block is listed there if and only if it is, whatever stale data other pages hold |
| `FreeLists.Unlink` | kernel/src/mm/pmm.c:164 | removing a head from its list removes exactly its block |
| `FreeLists.Link` | kernel/src/mm/pmm.c:173-175 | appending a head adds exactly its block |
| `Bitmap.FillRange` | kernel/src/mm/pmm.c:49-107 | bits, whole bytes, bits: exactly the clamped range is set or cleared |
| `Bitmap.ClampedRange` | kernel/src/mm/pmm.c:49-107 | the clamped range holds exactly the managed pages of the range asked for, none when that starts outside |
| `PhysicalMemory.MarkingMoves` | kernel/src/mm/pmm.c:143-147 | clearing the used bits of a block frees exactly its pages, setting them takes exactly those |
| `PhysicalMemory.PageAllocator.constructor` | kernel/src/mm/pmm.c:230-343 | after boot exactly the usable pages are free, in disjoint aligned blocks, and merged if and only if no aligned run straddles two regions |
| `PhysicalMemory.PageAllocator.CarveRegion` | kernel/src/mm/pmm.c:273-343 | one region is cut into blocks that cover exactly its usable pages and cannot be merged |
| `PhysicalMemory.LargestOrder` | kernel/src/mm/pmm.c:295-320 | the largest aligned order inside the region and clear of the metadata |
| `PhysicalMemory.AdjacentRegionsStraddle` | kernel/src/mm/pmm.c:330-336 | two adjacent one-page regions leave two unmerged buddies |
| `PhysicalMemory.BlockForRun` | kernel/src/mm/pmm.c:360-370 | a listed block of an order holds a free run of that order, and with merged lists every free run lies in one |
| `PhysicalMemory.UnmergedHidesRun` | kernel/src/mm/pmm.c:330-370 | with two unmerged buddies a free run of two pages is not found |
| `PhysicalMemory.OrderLoopEndsIff` | kernel/src/mm/pmm.c:117-125 | the order loop ends if and only if the count is at most 2^63 |
| `PhysicalMemory.PageAllocator.TakeSibling` | kernel/src/mm/pmm.c:149-171 | the buddy is taken off its list if and only if it is a free block of that order |
| `PhysicalMemory.PageAllocator.CoalesceUp` | kernel/src/mm/pmm.c:149-175 | the merge loop computes the merged free set |
| `PhysicalMemory.PageAllocator.FreeInternal` | kernel/src/mm/pmm.c:143-176 | exactly the block's pages become free, lists, bitmap and nodes agree again, and merged lists stay merged |
| `PhysicalMemory.PageAllocator.SplitDown` | kernel/src/mm/pmm.c:376-384 | the split loop computes the split free set |
| `PhysicalMemory.PageAllocator.GetOrder` | kernel/src/mm/pmm.c:117-125 | the smallest order whose block holds the count, for the counts on which the loop ends |
| `PhysicalMemory.PageAllocator.AllocPages` | kernel/src/mm/pmm.c:350-396 | null if and only if no free block of the rounded size is listed, with merged lists if and only if no aligned run of that size is free; else the first block of the lowest nonempty list, its pages no longer free, one reference each |
| `PhysicalMemory.PageAllocator.AllocRange` | kernel/src/mm/pmm.c:446-495 | a block inside the bounds, or null if and only if no listed block of sufficient order lies inside them |
| `PhysicalMemory.PageAllocator.AllocConstrained` | kernel/src/mm/pmm.c:398-444 | the same with an upper bound only |
| `PhysicalMemory.RangeMissesStraddlers` | kernel/src/mm/pmm.c:458-471 | free pages inside the bounds are missed when their block straddles a bound |
| `PhysicalMemory.PageAllocator.Incref` | kernel/src/mm/pmm.c:547-557 | one more reference in 16 bits; sound if and only if the page was not free |
| `PhysicalMemory.PageAllocator.Decref` | kernel/src/mm/pmm.c:559-579 | the page becomes free if and only if its last reference went |
| `PhysicalMemory.PageAllocator.ReleaseBlock` | kernel/src/mm/pmm.c:520-533 | every page loses a reference, the head's count decides; sound if and only if no other page of the block is still referenced |
| `PhysicalMemory.PageAllocator.FreePagesAt` | kernel/src/mm/pmm.c:499-536 | the same with the early returns for null, unmanaged and already free addresses |
| `PhysicalMemory.PageAllocator.Scribble` | kernel/src/mm/pmm.c:160-165 | owners may write anything over the list nodes of their pages |
| `AvlTree.InsertSound` | kernel/src/mm/vma.c:70-107 | insertion keeps heights and greatest ends exact and every node balanced, and grows the tree by at most one |
| `AvlTree.InsertOrder` | kernel/src/mm/vma.c:70-107 | insertion adds exactly the region to the in-order list and keeps order and disjointness |
| `AvlTree.DeleteSound` | kernel/src/mm/vma.c:116-184 | deletion keeps heights, greatest ends and balance |
| `AvlTree.DeleteOrder` | kernel/src/mm/vma.c:116-184 | deletion removes exactly the region with that start, also by successor copy-up |
| `AvlTree.RightOrder` | kernel/src/mm/vma.c:42-52 | a right rotation keeps the in-order list |
| `AvlTree.LeftOrder` | kernel/src/mm/vma.c:54-64 | a left rotation keeps the in-order list |
| `AvlTree.RightSound` | kernel/src/mm/vma.c:87-88 | a single right rotation repairs a left-heavy node |
| `AvlTree.DoubleRightSound` | kernel/src/mm/vma.c:95-98 | a double rotation repairs one whose left child leans right |
| `AvlTree.FindScan` | kernel/src/mm/vma.c:310-323 | the pruned search finds a region if and only if a linear scan would |
| `AvlTree.FindOverlapScan` | kernel/src/mm/vma.c:329-344 | the pruned overlap search finds one if and only if a linear scan would |
| `VmaNodes.UpdateIs` | kernel/src/mm/vma.c:29-40 | updating a node in memory yields the tree of its two subtrees with exact height and greatest end |
| `VmaNodes.NodeTree.RotateRightAt` | kernel/src/mm/vma.c:42-52 | the pointer swap represents the rotated tree over the same nodes and touches no other |
| `VmaNodes.NodeTree.RotateLeftAt` | kernel/src/mm/vma.c:54-64 | likewise to the left |
| `VmaNodes.NodeTree.FixInsertAt` | kernel/src/mm/vma.c:84-106 | the four rebalancing cases in place |
| `VmaNodes.NodeTree.InsertAt` | kernel/src/mm/vma.c:70-107 | the nodes then represent the tree insertion gives, and no node outside is touched |
| `VmaNodes.NodeTree.MinNodeAt` | kernel/src/mm/vma.c:109-114 | the leftmost node |
| `VmaNodes.NodeTree.FixDeleteAt` | kernel/src/mm/vma.c:160-183 | the four rebalancing cases in place |
| `VmaNodes.NodeTree.UnlinkNode` | kernel/src/mm/vma.c:129-139 | a node with at most one child is replaced by it and freed |
| `VmaNodes.NodeTree.CopyUp` | kernel/src/mm/vma.c:140-155 | a node with two children takes its successor's region and the successor's node goes |
| `VmaNodes.NodeTree.DeleteAt` | kernel/src/mm/vma.c:116-184 | the nodes then represent the tree deletion gives; nodes no longer in it are freed, none leaks, no node outside is touched |
| `Regions.FindAt` | kernel/src/mm/vma.c:325-327 | looking an address up in the tree gives the address map's value there |
| `Regions.CutAt` | kernel/src/mm/vma.c:231-270 | unmapping removes exactly the range from the address map; every surviving address keeps protection, flags, file and file position |
| `RegionTree.CutOutOrder` | kernel/src/mm/vma.c:231-270 | on the tree, cutting overlapping regions until there are none cuts every region of the list |
| `RegionTree.ChangeOrder` | kernel/src/mm/vma.c:287-305 | re-protecting part of a region replaces it in the list by what is left below, the part, and what is left above |
| `RegionTree.ChangeAt` | kernel/src/mm/vma.c:287-305 | and changes the protection of exactly that part of the address map |
| `AddressSpace.VmaList.Add` | kernel/src/mm/vma.c:205-229 | refused if and only if some region overlaps; else the list gains exactly this region, well formed if and only if the interval is not empty |
| `RegionTree.InsertAt` | kernel/src/mm/vma.c:205-229 | mapping extends the address map exactly on its interval |
| `AddressSpace.VmaList.RemoveOne` | kernel/src/mm/vma.c:236-266 | one overlapped region is replaced by exactly its pieces outside the range |
| `AddressSpace.VmaList.Remove` | kernel/src/mm/vma.c:231-270 | the loop ends with every region cut, and reports whether there was any |
| `AddressSpace.RemoveExactIff` | kernel/src/mm/vma.c:252-266 | exactly the range is unmapped if and only if it is not reversed inside a region |
| `AddressSpace.ReversedRemoveLoses` | kernel/src/mm/vma.c:252-256 | a reversed range inside a region loses the region's end |
| `AddressSpace.VmaList.Reprotect` | kernel/src/mm/vma.c:287-305 | exactly the part of a region gets the new protection |
| `AddressSpace.VmaList.Mprotect` | kernel/src/mm/vma.c:272-308 | only protections change and only inside the range; every mapped address of it ends with the new protection if and only if no jump over a gap passes a region without it |
| `Protection.ReachedIff` | kernel/src/mm/vma.c:272-308 | the same on the tree, from any point of the loop on |
| `Protection.OnePastGapSuffices` | kernel/src/mm/vma.c:277-284 | with at most one region of the range past its first gap nothing is skipped, whatever the shape of the tree |
| `Protection.ReachedToGap` | kernel/src/mm/vma.c:272-308 | up to the first gap every address ends with the new protection |
| `Protection.MprotectSafe` | kernel/src/mm/vma.c:272-308 | no address is mapped or unmapped, and none outside the range changes |
| `Protection.MprotectSkips` | kernel/src/mm/vma.c:277-284 | two regions after a gap: the upper one gets the new protection, the lower one keeps the old |
| `AddressSpace.VmaList.MergeAdjacent` | kernel/src/mm/vma.c:438-484 | every address keeps its protection, flags and file, and neighbouring anonymous addresses of equal protection and flags end up in one region |
| `AddressSpace.VmaList.CloneTree` | kernel/src/mm/vma.c:372-384 | the clone gains exactly the source's regions |
| `AddressSpace.SortedSame` | kernel/src/mm/vma.c:381-384 | so the clone's list equals the source's, whatever the shape of its tree |
| `AddressSpace.VmaList.FindGap` | kernel/src/mm/vma.c:395-436 | the result is the lowest free place from base on; it is 0 instead if and only if no region lies above that place and its end, in 64 bits, is past the limit |
| `AddressSpace.FindGapExactIff` | kernel/src/mm/vma.c:416-435 | the lowest free place below the limit, or 0 if there is none, is returned if and only if the lowest place ends below the limit, or no region lies above it and its end does not wrap |
| `AddressSpace.FindGapSafe` | kernel/src/mm/vma.c:395-436 | which holds when no region begins above the limit and no sum wraps |
| `AddressSpace.GapOversteps` | kernel/src/mm/vma.c:416-423 | a gap between two regions is returned past the limit |
| `AddressSpace.GapWraps` | kernel/src/mm/vma.c:432-433 | past the last region the sum wraps and a place beyond the address space is returned |
| `Slab.Cache.Alloc` | kernel/src/mm/slab_cache.c:226-290 | the lowest object not in use, from the first partial, else empty, else new slab; null only without all three; slabs on the lists their counts name, statistics exact |
| `Slab.Cache.FirstFree` | kernel/src/mm/slab_cache.c:252-266 | a slab with free objects has a clear bit, and the lowest is found |
| `Slab.Cache.Free` | kernel/src/mm/slab_cache.c:292-361 | an object is released if and only if it is in use and the pointer lies in it, and exactly it; a double free, a pointer to no object or null changes nothing |
| `Slab.Cache.Resolve` | kernel/src/mm/slab_cache.c:292-330 | the object found is the one the pointer lies in, and none is found if and only if it lies in none |
| `Slab.Cache.Promote` | kernel/src/mm/slab_cache.c:347-358 | full to partial with the first free object, partial to free with the last, each to the front of its list |
| `Slab.Cache.Shrink` | kernel/src/mm/slab_cache.c:363-387 | all empty slabs go and no object in use is touched |
| `Slab.ObjectsApart` | kernel/src/mm/slab_cache.c:280-281 | different objects never overlap, within a slab or across slabs |
| `Slab.ResolveBack` | kernel/src/mm/slab_cache.c:298-326 | a pointer lies in an object if and only if its page and its 64-bit offset, divided and cut to 32 bits, give that object |
| `Slab.IndexOfHeader` | kernel/src/mm/slab_cache.c:319-326 | for a pointer into the header the wrapped index is past every object |
| `BlockTree.SetTree` | kernel/src/fs/ext2.c:427-569 | setting an entry of an indirect tree changes it alone, through freshly allocated zeroed blocks; a set that runs out of blocks changes no entry |
| `BlockTree.OffPathGets` | kernel/src/fs/ext2.c:320-407 | trees that do not span the block set keep every entry |
| `BlockTree.AllocFresh` | kernel/src/fs/ext2.c:168-212 | an allocated block is nonzero and belonged to nobody |
| `BlockTree.PutPtrAt` | kernel/src/fs/ext2.c:438-440 | a pointer written to a block is read back, all others unchanged |
| `BlockTree.PutPtrBytes` | kernel/src/fs/ext2.c:438-440 | a pointer is stored in its four bytes, low byte first, and no other byte changes |
| `BlockMap.SetBlock` | kernel/src/fs/ext2.c:411-572 | the block map law: a set changes exactly its own entry of its own file and no data block; a failed set changes no entry |
| `BlockMap.OnePath` | kernel/src/fs/ext2.c:411-572 | no disk block, data or indirect, is reachable by two paths |
| `BlockMap.NoSharing` | kernel/src/fs/ext2.c:320-407 | no disk block is mapped twice, within a file or across files |
| `BlockMap.SlotsApart` | kernel/src/fs/ext2.c:324-368 | different inode pointers cover different logical blocks |
| `BlockMap.GetLayout` | kernel/src/fs/ext2.c:320-407 | blocks 0 to 11 are direct, and block 12 + i, 12 + n + in + j and 12 + n + nn + (in + j)n + k are found through one, two and three pointer blocks by the digits i, j, k; beyond there are none |
| `FileData.PatchMapped` | kernel/src/fs/ext2.c:730-736 | overwriting part of a mapped block changes exactly those bytes of that file |
| `FileData.FileLayout` | kernel/src/fs/ext2.c:632-675 | byte p of block b of a file is byte p of the disk block behind b, 0 in a hole |
| `FileData.PatchHole` | kernel/src/fs/ext2.c:722-736 | filling a hole shows the bytes among zeros and changes nothing else; if the pointer could not be set it stays a hole |
| `FileData.SetFails` | kernel/src/fs/ext2.c:411-572 | a set fails only beyond the addressable range or on a full volume |
| `Ext2.FileSystem.AllocBlock` | kernel/src/fs/ext2.c:168-212 | the lowest free block over all groups, or 0 if and only if there is none; free counts stay exact |
| `Ext2.FileSystem.GetBlockNum` | kernel/src/fs/ext2.c:320-407 | the levels spelled out are the recursive lookup |
| `Ext2.FileSystem.SetBlockNum` | kernel/src/fs/ext2.c:411-572 | the levels spelled out are the recursive set |
| `Ext2.FileSystem.ReadFile` | kernel/src/fs/ext2.c:632-675 | the bytes of the file from the offset on, holes as zeros, as many as the 32-bit clamp allows |
| `Ext2.ReadLengthIff` | kernel/src/fs/ext2.c:642-646 | the clamp is right if and only if offset plus size does not wrap around to inside the file |
| `Ext2.ReadWraps` | kernel/src/fs/ext2.c:642-646 | a request whose end wraps to inside the file is not clamped |
| `Ext2.FileSystem.WriteChunk` | kernel/src/fs/ext2.c:710-738 | one chunk changes exactly its bytes |
| `Ext2.FileSystem.WriteFile` | kernel/src/fs/ext2.c:695-758 | written bytes inside the range, all other bytes of all files unchanged, size updated; short only on a full volume |
| `Ext2.ReadBack` | kernel/src/fs/ext2.c:722-729 | a written offset reads as the byte written if and only if its block is mapped, else as zero, and that only beyond the range or on a full volume |
| `Directory.SplitBlock` | kernel/src/fs/ext2.c:924-941 | splitting a record keeps the chain tiling the block and adds exactly the new link |
| `Directory.FreshLinks` | kernel/src/fs/ext2.c:964-971 | a new directory block holds exactly the new link |
| `Directory.MergeBlock` | kernel/src/fs/ext2.c:1431-1434 | merging into the predecessor keeps the tiling and removes exactly the link |
| `Directory.ClearBlock` | kernel/src/fs/ext2.c:1435-1438 | clearing the inode number keeps the tiling and removes exactly the link |
| `Directory.WriteRecBytes` | kernel/src/fs/ext2.c:930-944 | a record on disk is inode number and length, low byte first, name length, kind and name |
| `Directory.SplitAligned` | kernel/src/fs/ext2.c:920-944 | splitting keeps all record lengths divisible by four |
| `Directory.FoursStart` | kernel/src/fs/ext2.c:925 | so every record starts at a multiple of four |
| `DirFile.AddLookup` | kernel/src/fs/ext2.c:890-978 | a new name makes exactly itself findable |
| `DirFile.RemoveLookup` | kernel/src/fs/ext2.c:1386-1454 | removal makes exactly that name unfindable unless it occurs again |
| `DirFile.StoredIff` | kernel/src/fs/ext2.c:938 | the name found is the name given if and only if it has at most 255 bytes |
| `DirFile.LongNameLost` | kernel/src/fs/ext2.c:938 | a name of 256 bytes is found under the empty name and not under its own |
| `DirFile.ScanBlock` | kernel/src/fs/ext2.c:1407-1450 | the first live record of a name in a block, and the record before it if and only if that is live |
| `DirFile.DirFile.Find` | kernel/src/fs/ext2.c:818-885 | the inode of the first live record of that name over all blocks, or none |
| `DirFile.DirFile.Add` | kernel/src/fs/ext2.c:890-978 | exactly one more link, with its kind; a new block if and only if no record has the slack; records stay aligned |
| `DirFile.DirFile.Remove` | kernel/src/fs/ext2.c:1386-1454 | the first link of that name goes, merged into the record before it if and only if that is live and else cleared, or nothing changes and there is none; records stay aligned |
| `Journal.CrashAtomic` | kernel/src/fs/ext3.c:85-284 | from a clean journal with no header of this transaction at the place where the scan after it goes on, a crash after any write of a transaction and any number of crashes in recovery leave all home blocks old, or from the commit on all new |
| `Journal.StaleHeaderReplayed` | kernel/src/fs/ext3.c:223-279 | with a stale descriptor of the same sequence number at that place, recovery issues a write beyond those of the transaction |
| `Journal.StaleHeaderTears` | kernel/src/fs/ext3.c:223-279 | when that descriptor names a block the transaction does not contain, whose bytes differ from those logged behind it, the transaction is torn: after a crash at its commit neither all of it nor none of it is what recovery leaves |
| `Journal.RunCrashAtomic` | kernel/src/fs/ext3.c:85-284 | the same for the last of any run of transactions whose sequence numbers that place does not carry |
| `Journal.AtomicIff` | kernel/src/fs/ext3.c:75-284 | a transaction is crash atomic if and only if the journal it starts on is not marked as needing recovery and the place where the scan after it goes on carries no header of its number |
| `Journal.DirtyStartTears` | kernel/src/fs/ext3.c:75-80 | with the mark left standing by recovery, a crash in the next transaction replays the old descriptor over new data |
| `Journal.RecoveryStaysDirty` | kernel/src/fs/ext3.c:216-284 | recovery leaves the mark standing |
| `Journal.RecoverCommitted` | kernel/src/fs/ext3.c:216-284 | recovery of a committed transaction writes exactly its blocks home |
| `Journal.ReplayTagsCorrect` | kernel/src/fs/ext3.c:243-268 | replay of one descriptor applies the logged copies in order and runs on over zero tags without effect |
| `Journal.StoredFlagsUnseen` | kernel/src/fs/ext3.c:248-265 | swapped twice, no flag stored in a tag is ever seen by recovery |
| `Journal.CommittedDescriptor` | kernel/src/fs/ext3.c:148-161 | the descriptor as written names exactly the transaction's blocks |
| `Journal.CrashBeforeCommit` | kernel/src/fs/ext3.c:144-177 | before the superblock write the home blocks are old and the journal clean |
| `Journal.CrashAfterCommit` | kernel/src/fs/ext3.c:179-203 | from the superblock write on the transaction is recoverable |
| `Journal.TxnCompletes` | kernel/src/fs/ext3.c:188-214 | a completed transaction is home, the journal idle, and the sequence number stored one higher, modulo 2^32 |
| `Journal.SuccValue` | kernel/src/fs/ext3.c:204 | the next sequence number is one higher, modulo 2^32 |
| `Journal.CommitFormat` | kernel/src/fs/ext3.c:97-187 | on disk are the data blocks, a descriptor with magic, type 1, number and one tag per block, big-endian, whose flags are 1 for data that begins with the magic number and 8 for the last tag, and a commit block of type 2 |
| `Journal.CommitAdvances` | kernel/src/fs/ext3.c:223-279 | a commit block of the number looked for writes nothing and sends the scan on with the number one higher |
| `Journal.NextCycles` | kernel/src/fs/ext3.c:223-279 | the scan goes round the journal blocks, leaving out the superblock |
| `Journal.RebootCommitted` | kernel/src/fs/ext3.c:216-284 | an interrupted recovery can be interrupted and resumed any number of times |
| `Ext3.JournalDevice.Start` | kernel/src/fs/ext3.c:85-108 | begins a transaction with an empty descriptor |
| `Ext3.JournalDevice.JournalBlock` | kernel/src/fs/ext3.c:110-142 | logs a block: its copy in the journal and its tag in the descriptor |
| `Ext3.JournalDevice.Stop` | kernel/src/fs/ext3.c:144-214 | issues exactly the model's writes in order and counts the sequence number up by one, modulo 2^32 |
| `Ext3.JournalDevice.ReplayDescriptor` | kernel/src/fs/ext3.c:243-268 | the tag loop is the model's |
| `Ext3.JournalDevice.ReplayLog` | kernel/src/fs/ext3.c:216-284 | the log loop is the model's |
| `Ext3.JournalDevice.Mount` | kernel/src/fs/ext3.c:20-83 | recovers if and only if the superblock asks for it, and goes on with the sequence number stored there |
| `Ring.Ring.Write` | kernel/src/drivers/pty.c:40-59 | appends exactly the prefix that fits, also around the end of the buffer |
| `Ring.Ring.Read` | kernel/src/drivers/pty.c:62-83 | takes exactly the first bytes out |
| `Ring.Ring.DropLast` | kernel/src/drivers/pty.c:308-311 | takes the last byte back |
| `Pty.InputCounted` | kernel/src/drivers/pty.c:297-351 | in canonical mode the newline count stays exact through input, erases and echo |
| `Pty.InputQueues` | kernel/src/drivers/pty.c:297-349 | in every mode input without erases is queued byte for byte, CR as NL under ICRNL, as far as it fits, and with room its echo is exactly what was queued, CR before NL under ONLCR |
| `Pty.EraseUndoes` | kernel/src/drivers/pty.c:301-320 | a byte and an erase leave queue and count as they were, and with room echo the byte and its rubbing out |
| `Pty.EraseStops` | kernel/src/drivers/pty.c:301-320 | at the start of the queue or of a line an erase does nothing |
| `Pty.RawSame` | kernel/src/drivers/pty.c:288-295 | the raw fast path queues exactly what the byte-by-byte path would |
| `Pty.EraseKeepsLines` | kernel/src/drivers/pty.c:305-320 | erase never reaches into a finished line |
| `Pty.LineShape` | kernel/src/drivers/pty.c:614-625 | a canonical read stops at the first newline or the size asked for |
| `Pty.LineNewlines` | kernel/src/drivers/pty.c:614-625 | and takes out exactly the newline it ends with, if any |
| `Pty.ExpandSplit` | kernel/src/drivers/pty.c:717-737 | output written in pieces is expanded as if written at once |
| `Pty.ExpandCollapse` | kernel/src/drivers/pty.c:717-737 | every newline of the output has a carriage return right before it, and taking these out gives back input without carriage returns |
| `Pty.Pair.FeedByte` | kernel/src/drivers/pty.c:297-349 | one input byte: erased or queued, and echoed, as `Feed` says, which `InputQueues`, `EraseUndoes` and `EraseStops` pin down |
| `Pty.Pair.MasterWrite` | kernel/src/drivers/pty.c:255-352 | input without erases is queued byte for byte, CR as NL under ICRNL, as far as it fits, and that many bytes are taken; in general the byte loop of the model |
| `Pty.Pair.SlaveRead` | kernel/src/drivers/pty.c:541-629 | waits if and only if the master is open and no whole line, or outside canonical mode no byte, is queued; else a line or part of it, or whatever is there; what is left follows it; the count stays exact |
| `Pty.Pair.RescanNewlines` | kernel/src/drivers/pty.c:765-774 | counts exactly the newlines queued |
| `Pty.Pair.SetMode` | kernel/src/drivers/pty.c:798-818 | switching modes keeps the queues and makes the count exact |
| `Pty.Pair.SlaveWrite` | kernel/src/drivers/pty.c:717-747 | appends exactly the expansion of the longest prefix that fits, never half a pair |
| `PtyWake.RunFromBoot` | kernel/src/drivers/pty.c:205-253 | in every interleaving a reader asleep although there is data or no slave has a waker that has not finished its pass |
| `PtyWake.ReadDecides` | kernel/src/drivers/pty.c:213-243 | at its test a reader takes some of the bytes there are, ends without open slaves, and queues itself otherwise |
| `PtyWake.ReadReturns` | kernel/src/drivers/pty.c:213-243 | a reader comes back only with bytes or at the end of the line |
| `PtyWake.SlavesCounted` | kernel/src/drivers/pty.c:919-962 | an opening adds one slave, a closing takes one away if there is one, nothing else changes their number |
| `PtyWake.SleepReached` | kernel/src/drivers/pty.c:213-236 | a sleeping reader is reached from boot |
| `PtyWake.WokenReads` | kernel/src/drivers/pty.c:205-253 | from there a writer queues a byte and wakes it, and it takes the byte |
| `PtyWake.StepKeeps` | kernel/src/drivers/pty.c:664-756 | no step of a reader, writer, echoing writer, opener or closer loses a wake-up |
| `PtyWake.StepShape` | kernel/src/sched/wait.c:11-56 | every step keeps locks, queue and thread states consistent |
| `PtyWake.StillWakes` | kernel/src/sched/wait.c:42-56 | a wake pass that owes a thread a wake-up still does after each entry, or has just woken it |
| `PtyWake.NewlyAsleep` | kernel/src/drivers/pty.c:938-962 | whoever makes the wait pointless owes the wake-up |
| `PtyWake.WakerAdvances` | kernel/src/sched/wait.c:42-56 | the waker, or the holder of the queue lock, can always take a step |
| `SlaveWake.StepKeepsIff` | kernel/src/drivers/pty.c:541-629 | on the slave side every step of a reader, writer, closer or mode change keeps the law that a reader asleep although it could read is owed a wake-up, if and only if it is not a mode change that makes the line readable for a waiting reader to whom no wake-up is owed |
| `SlaveWake.RunFromBoot` | kernel/src/drivers/pty.c:541-629 | so in every interleaving without such a change no wake-up is lost |
| `SlaveWake.StrandingIs` | kernel/src/drivers/pty.c:798-818 | such a change is always one from canonical to raw mode over bytes without a newline |
| `SlaveWake.SwitchReached` | kernel/src/drivers/pty.c:541-609 | a reader that sleeps on an unfinished line while the mode is about to change is reached from boot |
| `SlaveWake.RawSwitchStrands` | kernel/src/drivers/pty.c:798-818 | after the change the byte is readable, the reader sleeps and nobody will wake it |
| `SlaveWake.StepShape` | kernel/src/sched/wait.c:11-56 | every step keeps locks, queue and thread states consistent |
| `SlaveWake.NewlyWakeful` | kernel/src/drivers/pty.c:327-358 | whoever makes waiting pointless, other than by a mode change, owes the wake-up |
| `SlaveWake.ReadDecides` | kernel/src/drivers/pty.c:555-629 | at its test a reader takes what may be read, ends if the master is gone, and queues itself otherwise |
| `SlaveWake.ReadReturns` | kernel/src/drivers/pty.c:555-629 | a reader comes back only when there was something to read or the master is gone |
| `SlaveWake.ModeSets` | kernel/src/drivers/pty.c:798-818 | a change of mode sets the mode asked for, keeps the bytes, and counts the newlines anew on entering canonical mode only |
| `SlaveWake.LineEnds` | kernel/src/drivers/pty.c:512-535 | only the closing of the master ends the line |
| `WriterWake.StepKeepsIff` | kernel/src/drivers/pty.c:664-715 | every step of a slave writer, master reader, echo, opener or closer keeps the law that a writer asleep although there is room or no master is owed a wake-up, if and only if it is not a closing of the master that leaves a waiting writer to whom none is owed |
| `WriterWake.RunFromBoot` | kernel/src/drivers/pty.c:664-715 | so in every interleaving without such a closing no wake-up of a writer is lost |
| `WriterWake.StrandingIs` | kernel/src/drivers/pty.c:512-535 | such a closing is always one with no slave open, the master open and the ring full |
| `WriterWake.CloseReached` | kernel/src/drivers/pty.c:664-698 | a writer that sleeps on a full ring while the master is about to close after the last slave is reached from boot |
| `WriterWake.CloseStrands` | kernel/src/drivers/pty.c:512-535 | after the closing the writer need not wait, sleeps, and nobody will wake it |
| `WriterWake.NewlyWakeful` | kernel/src/drivers/pty.c:242-249 | whoever makes room owes the wake-up |
| `WriterWake.WriteDecides` | kernel/src/drivers/pty.c:664-756 | whether it has waited or not, a writer fills the room there is, ends if the master is gone, and waits otherwise |
| `WriterWake.WriteReturns` | kernel/src/drivers/pty.c:664-756 | a writer comes back only when there was room or the master is gone |
| `WriterWake.ReadTakes` | kernel/src/drivers/pty.c:242-249 | a master reader takes what it asks for as far as it is there, and goes on to wake the writers if and only if it took anything |
| `WriterWake.SlavesCounted` | kernel/src/drivers/pty.c:919-962 | an opening adds one slave, a closing takes one away if there is one, nothing else changes their number |
| `WriterWake.LineEnds` | kernel/src/drivers/pty.c:512-535 | only the closing of the master ends the line, and only with no slave open |
| `WriterWake.StepShape` | kernel/src/sched/wait.c:11-56 | every step keeps locks, queue and thread states consistent |
| `RunQueue.Cpu.Enqueue` | kernel/src/sched/sched.c:93-130 | the thread joins at the end of one cycle |
| `RunQueue.Cpu.constructor` | kernel/src/sched/sched.c:41-73 | a processor comes up with its idle thread, running, as the only one |
| `RunQueue.Cpu.Remove` | kernel/src/sched/sched.c:476-491 | exactly that thread leaves and one cycle is left |
| `RunQueue.Cpu.Reap` | kernel/src/sched/sched.c:443-498 | a thread is taken out if and only if it is in the ring and is not the idle thread, which always stays at the head |
| `RunQueue.Cpu.WakeExpired` | kernel/src/sched/sched.c:240-254 | the walk readies exactly the expired sleepers it passes |
| `RunQueue.Cpu.Yield` | kernel/src/sched/sched.c:225-299 | after readying exactly the expired sleepers other than the running thread, switches to the first runnable thread after the running one, or stays if and only if no other is runnable; the thread switched to runs, a running one that yields is ready, a blocked or sleeping one stays so, all others keep their state |
| `RunQueue.ScanChooses` | kernel/src/sched/sched.c:255-267 | the choice is a runnable thread, or the running one when no other is runnable |
| `RunQueue.WakeIs` | kernel/src/sched/sched.c:240-254 | the walk makes ready exactly the expired sleepers of the ring, the running thread aside |
| `RunQueue.BoundedWait` | kernel/src/sched/sched.c:225-299 | a thread that stays runnable is switched to within as many yields as it lies behind the running one, at most n - 1, plus one for each thread that joins meanwhile, whatever the others do and whichever of them leave |
| `RunQueue.WaitPaid` | kernel/src/sched/sched.c:225-299 | while it has not run, every yield is paid for by the places it lay behind and the threads that joined |

## Left out

- Inline assembly, TLB flushes, CR3 and MSR accesses, interrupt masking: hardware effects; a TLB flush is a no-op here.
- Out-of-memory paths in the re-insertion of split regions: allocation is taken to succeed there.
- VirtualMemory.Vmm.FreeUserPages: covers leaf mappings; huge pages and the frames of the tables themselves are not modelled there.
- Stack growth on faults, file-backed mappings other than by their attributes, and the signal trampoline page.
- Frames used for page tables in `CopyOnWrite`: fork and teardown are modelled on leaf mappings there, the tables themselves in `PageTable`.
- The kernel half of an address space, whose tables are shared between all address spaces, and mapping of huge pages.
- PageTable.MapPage: requires that no huge page lies on the way, because the code follows a huge entry as if it were a table.
- VirtualMemory.Vmm.HandlePageFault: models the copy-on-write and demand-zero branches, not file-backed and stack pages.
- CopyOnWrite.MunmapCorrect: one page of an anonymous or shared region; pages of file-backed regions and of none are in `MunmapRangeCorrect`, which takes the set of file-backed pages as given.
- pmm_reclaim_bootloader, pmm_mark_used and the computation of the lowest and highest page: no property beyond bounds.
- PhysicalMemory.PageAllocator.constructor: takes the memory map in pages; usable entries not aligned to pages, which the Limine boot protocol rules out, are not modelled.
- PhysicalMemory.PageAllocator.AllocRange: sets no reference counts, as in the source, so its pages are outside the counting law.
- Doubly linked list pointers of the buddy and slab lists: the lists are sequences, the node fields that the code tests are kept.
- AddressSpace.FindGapExactIff: for a base above 0, as a gap at address 0 is returned as 0 like none; a failed allocation of the scratch array, which also returns 0, is not modelled.
- PhysicalMemory.PageAllocator.GetOrder: requires a count of at most 2^63, beyond which `OrderLoopEndsIff` shows that the loop never ends.
- AddressSpace.VmaList.MergeAdjacent: file positions of anonymous pages are not kept, as the merged region gets offset 0.
- VmaNodes.NodeTree.FixInsertAt: the second rotation of a double rotation is guarded by a null test that a balanced tree never fails.
- Slab: constructors and destructors of objects, creation and destruction of caches.
- Slab.Cache.Shrink: says nothing of stale pointers into a slab that was given back, whose page keeps its magic number until its frame is used again.
- ext2_free_block, ext2_free_all_blocks and truncation: releasing blocks is not modelled.
- Ext2.FileSystem.WriteFile: times and the block count of the inode are not modelled, and the volume is one without a journal.
- Bytes of a block are integers in cells; device errors are not modelled.
- DirFile.DirFile.Add: a failure to record the new block in the inode goes unnoticed in the source and is not modelled; names must fit a block.
- Journal.AtomicIff: a dirty journal is one that holds a committed transaction whose first block the next one neither rewrites nor begins with; a header at the place where the scan goes on is a descriptor whose first block is likewise told apart, with no third header behind it. Otherwise the replay may happen to write what is there.
- Journal.CrashAtomic: covers one transaction that fits the journal, on a journal whose length is the number of its blocks; recovery's outer loop is given a bound on its rounds, at least two.
- Torn writes inside a block are not modelled; each block write is atomic.
- Window size, process groups, job-control signals, polling and mmap of pseudoterminals, and the allocation of a pair again after it was closed.
- Pty.Pair.MasterWrite: outside canonical mode the newline count is not pinned down, as it means nothing there.
- PtyWake, SlaveWake, WriterWake: each models one of the three wait queues; a thread that waits on another is taken to go on at any time. A wait queue entry is identified with its thread; the list order is kept, the pointers are not.
- RunQueue.Cpu.Reap: one processor's ring; the search over processors is not modelled.
- SlaveWake: bytes are counted, not kept; which of them are newlines is a choice of the step.
- RunQueue.Cpu.Yield: the running thread is one of the ring; a thread that has just been removed from it is not modelled.
- Load balancing over processors, timers themselves (which threads have expired is an input), and thread termination beyond removal.
- The network stack, fat32, heap.c, consoles, procfs, and user programs.
