# Scepter kernel verification

Scepter is a small single-CPU kernel. System calls and interrupts run with interrupts disabled, so what a task does
between two sleeps is one atomic step. This project models the kernel's core components in Dafny and proves what the
code relies on, with the 32-bit x86 layout: 32-bit words, 4 KB pages, a mapping region from 0x40000000 to 0xBF000000 and
the user stack below 0xC0000000. Only the page tables are modelled for x86_64 too. `dafny verify dfyconfig.toml` checks
the whole project.

## Components

| component | files |
|---|---|
| physical pages: bitmap, first fit | PageAllocator, Paging |
| two-level page tables against a flat map, fork copy | AddressSpace, Fork |
| four-level page tables (x86_64) against a flat map, fork copy | RadixTables, FourLevel, FourLevelFork |
| ELF loader: sort, merge into regions, page loop, areas, teardown | ElfImage, ElfHeaders, ElfLoad, ElfPages, ElfLoader, ElfExec, ExecLayout |
| memory areas: brk, mmap, munmap, stack growth | Vma, MmStruct, MmRuns |
| small objects: slabs, caches, free lists | SlabLayout, Slab, SlabHeap, SlabRuns |
| tmpfs: tree, walking, rename, links, open files, contents | PathNames, TmpfsTree, TmpfsRename, TmpfsLinks, TmpfsPaths, TmpfsRefs, TmpfsData, TmpfsOps, Tmpfs |
| block cache: LRU list, write-back, flush, bread and bwrite | CacheLog, CacheList, BlockCache, BlockIo |
| pipes | Pipe, PipeRuns |
| descriptors and shared open files | FdTables, OpenFiles, FdRuns |
| path normalisation, chroot, mounts | PathText, ResolvePath, Mounts |
| the argument block of exec | ExecStrings, ExecStack |
| scheduler and wait queues | Scheduler |
| signals | Signals |
| whole-file and record locks | Locks, LockRuns |
| shared by the others | Layout, Lists, Runs |

Each component has the same shape. A specification says what the state means (a flat map from pages to entries, a tree
walk, a queue of bytes, a device without a cache); methods follow the code's own loops and branches and are proved
against it; lemmas say what the specification promises; and where the property is about whole runs, the run's states
are given as a sequence in which each leads to the next (`Runs.IsRun`). State that the kernel updates in place is a
class; where the update of linked records is what the code is about (slabs, tmpfs nodes, descriptor tables, the LRU
list) a step maps one state value to the next and a class holds the current one.

Allocation failures, short reads, device errors and the choice of new addresses are parameters or free choices, and
every contract says what happens under them.

## Where the code does not keep a promise

Each is stated as an equivalence, the promise holds if and only if a condition holds, and most with a concrete input
for which it fails.

- `resolve_path` compares the raw path with the root as text. A process outside its root, in /jailbreak with the root
  /jail for instance, is taken for one inside, and ".." stops at the root (`ResolvePath.Resolve`,
  `ResolvePath.TextPrefixIsNotInside`).
- Under a chroot `resolve_path` copies an absolute path behind the root before it tests the length, so every path that is
  too long has been written past the temporary buffer (`ResolvePath.BuildRaw`).
- `chroot` leaves the current directory where it is: the process can leave its new root exactly if that is not a prefix
  of the current directory (`ResolvePath.Process.Chroot`, `ResolvePath.CanLeaveIff`, `ResolvePath.ChrootLeavesHome`).
- `close_range` compares signed numbers: a range that ends at or above 2^31 closes nothing
  (`OpenFiles.CloseRangeIsExact`, `OpenFiles.OpenEndedRangeClosesNothing`).
- A fork that fails after some entries were copied leaves their reference counts too high (`OpenFiles.Fork`,
  `OpenFiles.FailedForkLeaks`).
- tmpfs `rename` onto another existing name leaves two siblings of that name (`TmpfsOps.Rename`,
  `TmpfsOps.RenameClobbers`).
- tmpfs `rmdir` of the mount root drops the reference that keeps the root allocated (`TmpfsOps.Rmdir`,
  `TmpfsOps.RmdirTakesRoot`).
- The doubling loop that sizes a tmpfs buffer reaches 0 and never ends for sizes above 2^31
  (`TmpfsData.DoublingEndsIff`); the sums of offset and count in read and write can wrap (`TmpfsData.Read`,
  `TmpfsData.WriteIsDoneIff`); and growing a file that has a buffer but is empty loses the old buffer
  (`TmpfsData.Reserve`).
- The search for a free region wraps around when start plus length passes 4 GB, and then returns a place that is no gap
  (`MmStruct.MmStruct.FindFreeRegion`, `MmStruct.MmStruct.Map`, `MmStruct.WrappedMapping`).
- Areas of segments that share a page overlap, so the area list starts out disjoint only without shared pages
  (`ExecLayout.ImageIsWellPlaced`, `ExecLayout.SharedPageOverlaps`).
- Two record ranges that share a byte are found to overlap if and only if neither wraps around to an end before the start
  of the other (`Locks.OverlapIsSharedByte`, `Locks.WrappedRangeIsMissed`).
- A load that fails after it mapped pages leaves those outside the areas made so far allocated after teardown
  (`ElfExec.TeardownLeaves`, `ElfExec.LoadThenTeardown`).
- A pipe whose read end cannot be set up stays allocated with a writer (`OpenFiles.PipeFds`).
- sigsuspend puts the old mask back before the signal that ended it is handled, so a signal that only the temporary mask
  let through stays pending (`Signals.SuspendTakesIff`, `Signals.SuspendMissesSignal`).
- A comment in kernel/signal.c says that pending signals are scanned again after a stop; the loop goes on with the next
  number instead (`Signals.StopRescanIff`, `Signals.KillMissesStoppedTask`), and a caught signal whose trampoline or
  frame cannot be written is lost (`Signals.CaughtIsLostIff`).
- A comment in kernel/sched.c promises round robin among equal priorities; the search never sees the current task as
  READY, so the first task of the list with the best priority is taken (`Scheduler.PickIsRoundRobinIff`,
  `Scheduler.TurnIsMissed`).
- buddy_init cuts the number of its pages to the size of its bitmap, but that many pages do not fit into the direct map
  (`PageAllocator.PageAllocator.constructor`, `PageAllocator.GigabyteDoesNotFit`); its call at boot never gets there
  (`PageAllocator.BootIsInDirectMap`).

## Model

| member | source | states |
|---|---|---|
| PageBitmap.Bitmap.Set | mm/buddy.c:45-50 | setting a bit marks exactly that page, in 32-bit words |
| PageBitmap.Bitmap.Clear | mm/buddy.c:53-58 | clearing a bit unmarks exactly that page |
| PageBitmap.Bitmap.Test | mm/buddy.c:61-66 | the bit is set exactly for a marked page |
| PageAllocator.PageAllocator.constructor | mm/buddy.c:98-124 | on 32-bit words: all pages are free at first, their number is cut to that of the bitmap; the allocator is sound if and only if the pages lie in the direct map |
| PageAllocator.BootIsInDirectMap | mm/mminit.c:52-96 | with the kernel inside the direct map, what boot passes to buddy_init lies in the direct map, and the number of pages is not cut |
| PageAllocator.GigabyteDoesNotFit | mm/buddy.c:98-124 | a size that is cut to the bitmap reaches past the direct map |
| PageAllocator.FreeRunIsCounted | mm/buddy.c:130-168 | a free run of n pages is n pages of the free count, so the counter cannot go below zero |
| PageAllocator.PageAllocator.FindFreePages | mm/buddy.c:69-92 | the lowest run of free pages of the wanted length, or -1 exactly when there is none |
| PageAllocator.PageAllocator.AllocFlags | mm/buddy.c:130-168 | NULL exactly for no pages or when no run is free; else the first-fit run becomes used, nothing else changes, and the counter stays the number of free pages |
| PageAllocator.PagesNeeded | mm/buddy.c:130-140 | the least number of pages that hold the size, or none when rounding up wraps |
| PageAllocator.PageAllocator.AllocPage | mm/buddy.c:130-168 | one page is refused exactly when the counter is 0; else a page that was free becomes used |
| PageAllocator.PageAllocator.Free | mm/buddy.c:174-218 | exactly the page at the address becomes free, whichever mapping the address is from; NULL, foreign and free addresses change nothing |
| PageAllocator.PageAllocator.AddressRoundTrip | mm/buddy.c:33-42 | the address handed out for a page leads back to that page |
| Ram.Ram.AllocPage | mm/buddy.c:130-168 | the frame handed out was not in use, and is now |
| Ram.Ram.FreePage | mm/buddy.c:174-218 | exactly the frame is no longer in use |
| PageTables.HardwareSeesFlatMap | arch/i386/paging.c:26-40 | walking directory and table as the hardware does finds exactly the entries of the flat map |
| PageTables.StoreEntry | arch/i386/paging.c:251-276 | storing one table entry changes one page of the flat map and nothing else |
| PageTables.AddTable | arch/i386/paging.c:251-276 | hanging an empty table into a free directory slot does not change the flat map |
| PageTables.OtherPages | arch/i386/paging.c:326-361 | memory that is not one of the tables does not matter to the flat map |
| AddressSpace.AddressSpace.constructor | arch/i386/paging.c:242-249 | a new address space maps nothing and holds no table |
| AddressSpace.AddressSpace.EnsureTable | arch/i386/paging.c:251-276 | the slot has a table afterwards unless no page was free; the mapping does not change |
| AddressSpace.AddressSpace.MapUser | arch/i386/paging.c:251-276 | the flat map gets exactly this entry; it fails only above the user half or without memory, and then maps nothing |
| AddressSpace.AddressSpace.UserPresent | arch/i386/paging.c:283-294 | true exactly for the pages of the flat map |
| AddressSpace.AddressSpace.SetUserWritable | arch/i386/paging.c:363-378 | changes the writable bit of a mapped page and maps nothing new |
| AddressSpace.AddressSpace.UnmapUserRange | arch/i386/paging.c:380-396 | exactly the pages of the range leave the flat map; their frames stay allocated |
| AddressSpace.AddressSpace.FreeUserPage | arch/i386/paging.c:296-313 | a mapped page loses its entry and its frame is freed; an unmapped one changes nothing |
| AddressSpace.AddressSpace.FreeUserPages | arch/i386/paging.c:296-313 | exactly the pages of the range are unmapped and exactly their frames freed |
| AddressSpace.AddressSpace.FreeUserTables | arch/i386/paging.c:315-324 | exactly the page tables are freed, and the user half is empty |
| PageTables.CutOwns | arch/i386/paging.c:296-313 | after a range is cut out, the frames still held are the old ones without those of the range |
| ForkCopy.CopyPage | arch/i386/paging.c:326-361 | one page of the parent gets a fresh frame with the same bytes and flags in the child; failure changes nothing but tables |
| ForkCopy.CopyTable | arch/i386/paging.c:326-361 | one table of the parent is copied page by page, with the parent and all other memory unchanged |
| ForkCopy.CopyUser | arch/i386/paging.c:326-361 | on success the child has the same pages, flags and bytes as the parent in frames of its own; on failure memory ran out and every frame taken is the child's; the parent is unchanged |
| ForkCopy.WriteShows | arch/i386/paging.c:326-361 | a write through one page of an address space shows on that page only |
| ForkCopy.WritesStayPrivate | arch/i386/paging.c:326-361 | after a fork, a write on one side never shows on the other |
| ForkCopy.WholeCopy | arch/i386/paging.c:326-361 | when every entry was copied the user memory of the child equals the parent's |
| RadixTables.StoreLeaf | arch/x86_64/paging.c:34-41 | storing an entry of a lowest-level table changes that page of the flat map and nothing else |
| RadixTables.HangTable | arch/x86_64/paging.c:81-106 | an empty table hung below an absent entry changes no page, adds one table and leaves every other place of the tree as it was |
| RadixTables.SameBeside | arch/x86_64/paging.c:34-41 | changing an entry matters only to the places below it |
| RadixTables.NothingBelow | arch/x86_64/paging.c:197-213 | below a missing table nothing is found |
| RadixTables.PageOfPath | arch/x86_64/paging.c:34-41 | four indices and a page number determine each other |
| RadixTables.PathOfPage | arch/x86_64/paging.c:34-41 | the indices of a page are the nine-bit groups of its number, the highest first |
| RadixTables.BelowPath | arch/x86_64/paging.c:34-41 | the pages of the span of a table are those whose indices go on from its own |
| RadixTables.BelowStep | arch/x86_64/paging.c:259-276 | the tables behind successive entries are disjoint and together are all below |
| RadixTables.AllBelow | arch/x86_64/paging.c:250-280 | all tables but the top-level one are below it |
| RadixTables.EmptyTree | arch/x86_64/paging.c:277-280 | with the user half cleared nothing is mapped and no other table is left |
| FourLevel.Machine.EnsureTable | arch/x86_64/paging.c:85-90 | the slot has a table afterwards unless no page was free; no page is mapped or unmapped |
| FourLevel.Machine.EnsurePath | arch/x86_64/paging.c:85-106 | all levels above the entry exist afterwards, or memory ran out; pages in use elsewhere are untouched |
| FourLevel.Machine.MapUser | arch/x86_64/paging.c:181-190 | the flat map gets exactly this entry; it fails only above the limit or without memory, and then maps nothing; free pages and tables are conserved |
| FourLevel.Machine.UserPresent | arch/x86_64/paging.c:197-213 | true exactly for the pages of the flat map |
| FourLevel.Machine.SetUserWritable | arch/x86_64/paging.c:376-397 | changes the writable bit of a mapped page and maps nothing new |
| FourLevel.Machine.FreeUserPage | arch/x86_64/paging.c:222-246 | a mapped page loses its entry and its frame is freed; an unmapped one changes nothing |
| FourLevel.Machine.FreeUserPages | arch/x86_64/paging.c:215-248 | exactly the pages of the range are unmapped and exactly their frames freed, once each |
| FourLevel.Machine.UnmapUserRange | arch/x86_64/paging.c:399-427 | exactly the pages of the range leave the flat map; their frames stay allocated |
| FourLevel.Machine.FreeBelow | arch/x86_64/paging.c:259-276 | the loops of one level free exactly the tables below, each once |
| FourLevel.Machine.FreeUserTables | arch/x86_64/paging.c:250-280 | every table but the top-level one is freed, once each, and the user half is empty |
| FourLevelFork.SameSpaceReads | arch/x86_64/paging.c:310-374 | an address space whose tables are untouched reads as it did |
| FourLevelFork.SkipSubtree | arch/x86_64/paging.c:317-326 | where the parent has no table there is no page to copy |
| FourLevelFork.CopyPage | arch/x86_64/paging.c:355-366 | one page gets a frame of its own with the same bytes and flags; without memory nothing changes |
| FourLevelFork.CopyPages | arch/x86_64/paging.c:355-366 | the pages of one table are copied in order, and the parent and all other memory stay as they were |
| FourLevelFork.CopyBelow | arch/x86_64/paging.c:317-370 | the nested loops treat every page below a table once, at any level |
| FourLevelFork.CopyUser | arch/x86_64/paging.c:310-374 | on success the child has the same pages, flags and bytes in frames of its own; on failure memory ran out and every page taken is the child's; the parent is unchanged |
| ElfImage.ByteOfLastCovering | kernel/elf.c:204-230 | where segments overlap, the byte is that of the last one in order |
| ElfImage.ByteOutsideFile | kernel/elf.c:199-201 | a byte that no segment backs is zero |
| ElfImage.TouchesInAddresses | kernel/elf.c:237-241 | the page test on addresses is the page test on page numbers |
| SegmentOrder.SortInPlace | kernel/elf.c:154-162 | the insertion sort in place is the stable sort of the table |
| SegmentOrder.InsertInPlace | kernel/elf.c:155-161 | one turn moves the key behind the last segment that does not start after it, and nothing behind it |
| SegmentOrder.SortSegsSorts | kernel/elf.c:154-162 | the result is in address order and a permutation |
| SegmentOrder.SortSegsStable | kernel/elf.c:154-162 | segments that start at the same address keep their order, which decides whose bytes win |
| SegmentOrder.SortKeepsImage | kernel/elf.c:154-162 | sorting changes neither the pages of the image nor which are writable |
| ElfRegions.AddSegment | kernel/elf.c:170-181 | one more segment is joined to the last region or starts a new one, so that the regions cover exactly the segments so far |
| ElfRegions.MergeRegions | kernel/elf.c:170-181 | the regions are disjoint, in order, page-aligned, and cover exactly the pages of the segments |
| ElfPages.File.Pread | kernel/elf.c:221-222 | a nonempty piece of what was asked for, or no progress |
| ElfPages.ReadInto | kernel/elf.c:219-229 | however short the reads are, exactly the wanted part of the page gets the file's bytes |
| ElfPages.FillPage | kernel/elf.c:199-230 | the page holds, byte by byte, what the segments say; it fails only when a read makes no progress |
| ElfPages.PageWritable | kernel/elf.c:236-244 | writable exactly when a writable segment touches the page |
| ElfLoader.MapOwnPage | kernel/elf.c:246-251 | a frame of its own becomes one page of the map |
| ElfLoader.LoadPage | kernel/elf.c:192-252 | the page gets one fresh frame with the right bytes and permission, or nothing is kept; every frame taken belongs to the address space |
| ElfLoader.LoadRegion | kernel/elf.c:188-252 | all pages of one region, with the accounting of frames kept even when it stops half way |
| ElfLoader.HoleBetween | kernel/elf.c:170-190 | no page of the image lies between two regions |
| ElfLoader.LoadRegions | kernel/elf.c:188-258 | loading page by page maps exactly the pages of the image, each once, with the bytes and permissions of the segments; it stops only for a read without progress or when at most one page is left |
| ElfHeaders.SegsOfMembers | kernel/elf.c:315-344 | every header is loadable and in range exactly when the kept segments are all in range |
| ElfHeaders.PagesOfHeaders | kernel/elf.c:315-344 | the pages of the sorted segments are those on which some nonempty PT_LOAD header has bytes, and the writable ones those of a header with the write flag |
| ElfHeaders.ByteOfHeaders | kernel/elf.c:188-245 | the byte at an address is that of the file through the last header there, in address order and then in table order, or zero when none loads a byte there |
| ElfExec.CollectSegments | kernel/elf.c:315-344 | the nonempty PT_LOAD headers in order, refused exactly when one is out of range |
| ElfExec.CreateVmas | kernel/elf.c:269-281 | one area per segment, in address order, with the segment's own permissions |
| ElfExec.ImageBounds | kernel/elf.c:254-257 | the lowest and highest page of the image, and the heap start behind it |
| ElfExec.MapImage | kernel/elf.c:165-258 | merge and load: the mapped pages are the image |
| ElfExec.LoadSorted | kernel/elf.c:164-289 | pages, bytes, permissions and areas are those of the sorted segments; it fails only for want of memory, a bad read or no segment |
| ElfExec.LoadCommon | kernel/elf.c:149-289 | the load refines the segment-level meaning of the table, sorted; on failure every frame taken is held by the address space |
| ElfExec.Elf32Load | kernel/elf.c:291-352 | in terms of the program headers alone: refused before anything is mapped exactly if a nonempty PT_LOAD header is out of range; after a successful load the mapped pages, their write permission, every byte, the areas with their permissions and the bounds are what the headers say |
| ElfExec.AreasAreOfHeaders | kernel/elf.c:269-281 | each nonempty PT_LOAD header has an area with its pages and its write and exec flags, and there are no others |
| ElfExec.BoundsOfHeaders | kernel/elf.c:254-257 | the image runs from the lowest page of a header to the highest |
| ElfExec.CutAreasFacts | kernel/process.c:711-723 | cutting area after area leaves exactly the pages in no area |
| ElfExec.Teardown | kernel/process.c:711-723 | whatever the overlaps between areas, no frame is freed twice, and freed are exactly the frames of pages in some area and the tables |
| ElfExec.AreasCoverImage | kernel/elf.c:265-281 | the pages in some area are exactly the pages of the image, shared boundary pages included |
| ElfExec.TeardownImage | kernel/process.c:711-723 | tearing a loaded image down gives back every frame taken since before the load |
| ElfExec.TeardownLeaves | kernel/process.c:711-723 | teardown of whatever a load left: the frames of mapped pages outside the areas stay in use, and so nothing is lost if and only if every mapped page is in some area |
| ElfExec.LoadThenTeardown | kernel/elf.c:265-289 | after a successful load and teardown the used pages and the counter are as before; after a failed one they are if and only if every page it had mapped is in an area it had made |
| ExecLayout.ImageIsWellPlaced | kernel/elf.c:265-281 | the areas of an image with its stack are sorted and disjoint if and only if no two segments share a page |
| ExecLayout.SharedPageOverlaps | kernel/elf.c:265-281 | two concrete segments on one page whose areas overlap |
| VmaList.VmaList.Find | mm/vma.c:62-88 | the first area that contains the address or can grow down to it |
| VmaList.VmaList.Insert | mm/vma.c:90-106 | the area goes before the first one that starts after it |
| VmaList.VmaList.OverlapsAny | mm/vma.c:115-130 | true exactly when some area overlaps the range |
| VmaList.OverlapIsSharedByte | mm/vma.c:115-130 | the overlap test finds exactly the areas that share a byte with the range |
| VmaList.FindIsContaining | mm/vma.c:62-88 | in an ordered list the area that is found is the one that contains the address, if any does |
| VmaList.InsertKeepsOrder | mm/vma.c:90-106 | inserting an area that overlaps nothing keeps the list sorted and disjoint |
| MmStruct.MmStruct.FindHeap | kernel/syscall.c:371-427 | the first heap area |
| MmStruct.MmStruct.Brk | kernel/syscall.c:371-427 | refused exactly below the heap start, in the mapping region, above the limit, when the heap would shrink, or without memory for the first area; else the heap is exactly up to the break, readable and writable if it is new and with its old permissions otherwise, and no other area changes |
| MmStruct.MmStruct.FindFreeRegion | mm/vma.c:160-190 | the lowest gap at or above the start if and only if start plus length stays below 4 GB |
| MmStruct.NoGapBelow | mm/vma.c:160-190 | a taken candidate rules out every gap below the next page |
| MmStruct.MmStruct.Map | kernel/syscall.c:442-500 | a new area with exactly the wanted pages and permissions at the lowest gap; the list stays well placed if and only if the call fails or the request fits below 4 GB |
| MmStruct.WrappedMapping | kernel/syscall.c:442-500 | a request that wraps past 4 GB makes an area that ends before it starts |
| MmStruct.MmStruct.Unmap | kernel/syscall.c:545-593 | exactly the one area with these bounds is removed; otherwise nothing changes, and that is an error exactly when some area overlaps |
| MmStruct.UnmapRangeIs | kernel/syscall.c:545-560 | from the page of the first byte to the next page boundary after the last one, on 32-bit words |
| MmStruct.GrownIsPlaced | mm/pagefault.c:161-173 | a stack that grows within 8 MB stays above the mapping region |
| MmStruct.FindHits | mm/pagefault.c:150-173 | what a fault finds either contains the address or is the stack below which nothing else lies |
| MmStruct.MmStruct.Fault | mm/pagefault.c:138-196 | a fault less than 8 MB below the stack top and below the stack makes the stack start at the page of the address, with its end and permissions, and is resolved exactly if the stack permits the access and a page is free; any other fault changes no area and is resolved exactly if the area there permits it |
| MmRuns.Do | kernel/syscall.c:371-427 | each call or fault leads to exactly the areas and break it should |
| MmRuns.Run | mm/vma.c:62-190 | every run follows the steps of brk, mmap, munmap and faults, and keeps the areas aligned, sorted and disjoint, so a lookup finds the containing area whenever there is one |
| SlabLayout.AllAddresses | mm/slab.c:75-100 | the objects of a page are all different and each is listed once |
| SlabLayout.ObjectsFill | mm/slab.c:75-100 | a slab has as many objects as fit behind its header |
| SlabLayout.DistinctObjectsApart | mm/slab.c:75-100 | different objects do not overlap, in one page or in two |
| SlabLayout.ObjectFits | mm/slab.c:75-100 | an object lies behind the page header and inside the page, so masking its address finds the page |
| SlabLayout.ObjectsAreFew | mm/slab.c:75-100 | a list of different objects is not longer than the slab has objects |
| SlabLayout.FullListHasAll | mm/slab.c:210-220 | a list as long as the slab has objects holds all of them |
| Slab.RoundUpPow2 | mm/slab.c:54-61 | the smallest size class that is large enough: no smaller one of the table would do |
| Slab.GetCache | mm/slab.c:103-118 | the cache of the size, a new one, or none when all are used |
| Slab.Init | mm/slab.c:124-131 | no slab, and one cache for each size |
| Slab.CreateSlab | mm/slab.c:75-100 | the words of the page are linked into the list of all its objects, and no word outside changes |
| Slab.Grow | mm/slab.c:137-175 | a new slab becomes the only partial one of its size |
| Slab.Take | mm/slab.c:137-175 | an object that nobody holds, from the head of a free list; a slab without free objects moves to the full list |
| Slab.KallocObject | mm/slab.c:146-174 | for small objects: NULL exactly for size 0 or when a page is needed and there is none; else a new object of the size class, and a page is taken exactly when no slab of the size has room |
| Slab.Give | mm/slab.c:181-221 | the object is at the head of its slab's free list, and a full slab is partial again |
| Slab.ReleaseSpare | mm/slab.c:210-220 | a wholly free slab is released exactly when another partial one of its size exists |
| Slab.KfreeObject | mm/slab.c:192-221 | the object is free, at most its own page is given back, no word of another object changes, and the lists stay exact |
| Slab.TakeKeeps | mm/slab.c:137-175 | taking keeps free counts, lists and the one-spare rule |
| Slab.GiveKeeps | mm/slab.c:181-221 | giving back keeps them, except that its own slab may now be a second spare |
| Slab.ShrinkKeeps | mm/slab.c:210-220 | releasing a wholly free slab loses no live object and restores the one-spare rule |
| Slab.LiveObjectsDisjoint | mm/slab.c:137-175 | live objects miss the page headers and each other |
| Slab.OwnerMayWrite | mm/slab.c:137-221 | whatever a caller writes into its own object, the free lists stay sound |
| Slab.WhollyFreeHasNoLive | mm/slab.c:210-220 | no live object is in a slab whose free count is its object count |
| Slab.ExhaustedIsNoPartial | mm/slab.c:137-175 | the partial list of a size is empty exactly when no slab of the size has a free object |
| SlabHeap.SlabHeap.Kalloc | mm/slab.c:137-175 | over the page allocator: up to 2048 bytes a new object, larger requests the first free run of pages; NULL exactly when there is no room and no page, or no run |
| SlabHeap.SlabHeap.Free | mm/slab.c:181-221 | a released slab's page goes back to the page allocator |
| SlabRuns.IdleKeepsFewSlabs | mm/slab.c:210-220 | when everything was given back at most one slab of each size is kept |
| SlabRuns.Do | mm/slab.c:137-221 | what one call makes of the slabs, the objects that are held and the free pages |
| Slab.KallocKeeps | mm/slab.c:146-174 | the step of kalloc, slab by slab and list by list, keeps a sound state sound; its object is new, and a page is added exactly if no slab of the size has room |
| Slab.KfreeKeeps | mm/slab.c:192-221 | the step of kfree keeps a sound state sound, and releases at most the slab of the object |
| SlabRuns.NextKeeps | mm/slab.c:137-221 | a call keeps the heap sound for what is held, and slab pages plus free pages stay constant |
| SlabRuns.Run | mm/slab.c:137-221 | the worlds of every run follow from its calls; in each, held objects are disjoint, each size has at most one wholly free slab, slab pages plus free pages are constant, and an idle heap has at most one slab of each size |
| PathNames.SplitJoin | fs/tmpfs.c:146-170 | splitting a path at slashes inverts joining components |
| PathNames.FirstComponent | fs/tmpfs.c:146-170 | the first component and the rest of the path |
| TmpfsTree.FirstNamedFacts | fs/tmpfs.c:133-143 | the search finds a child with the name exactly when there is one |
| TmpfsTree.WalkIsParentThenChild | fs/tmpfs.c:146-208 | resolving a path is resolving its parent and looking the last component up there |
| TmpfsTree.WalkConcat | fs/tmpfs.c:146-170 | walking two paths one after the other is walking their concatenation |
| TmpfsTree.PathIsUnique | fs/tmpfs.c:146-170 | a node is reached by one path only |
| TmpfsRename.MoveKeepsTree | fs/tmpfs.c:449-475 | moving a node under a directory outside its subtree makes no cycle, and parent pointers and child lists still agree |
| TmpfsRename.RenameMovesSubtree | fs/tmpfs.c:449-475 | target/s resolves to what old/s resolved to, for every s; every path through neither resolves as before; the old path leads nowhere; names stay unique |
| TmpfsRename.OtherPathsKeep | fs/tmpfs.c:449-475 | a path that does not pass through the old or the new name leads where it led |
| TmpfsRename.SubtreeKeeps | fs/tmpfs.c:449-475 | below the moved node nothing changes |
| TmpfsRename.OldPathGone | fs/tmpfs.c:449-475 | the old path leads nowhere after the move |
| TmpfsRename.MoveKeepsUniqueNames | fs/tmpfs.c:449-475 | sibling names stay unique if and only if nothing else has the new name in the target directory |
| TmpfsRename.ThroughIsBelow | fs/tmpfs.c:449-475 | a path that leads through a node ends in its subtree |
| TmpfsLinks.AddKeepsTree | fs/tmpfs.c:404-422 | a new node in a directory keeps the tree |
| TmpfsLinks.AddKeepsUniqueNames | fs/tmpfs.c:404-422 | names stay unique if and only if the name was not taken |
| TmpfsLinks.CutKeepsTree | fs/tmpfs.c:424-447 | taking a childless node out of its directory keeps the tree |
| TmpfsLinks.DropKeepsTree | fs/tmpfs.c:74-80 | freeing a node that is in no directory keeps the tree |
| TmpfsPaths.MadePath | fs/tmpfs.c:404-422 | creating a node makes exactly its own path lead to it; every other path leads where it led |
| TmpfsPaths.GonePath | fs/tmpfs.c:424-447 | removing a childless node makes exactly its own path lead nowhere; every other path leads where it led |
| TmpfsRefs.CloseKeeps | fs/tmpfs.c:292-299 | the node goes with its last use, and the counts stay one link plus the open files |
| TmpfsRefs.CutKeeps | fs/tmpfs.c:424-447 | an unlinked node stays exactly while it is open |
| TmpfsData.PowerGap | fs/tmpfs.c:103-122 | no power of two lies between the one below and the one above a size |
| TmpfsData.DoublingEndsIff | fs/tmpfs.c:103-122 | some number of doublings on 32-bit words reaches the need if and only if it is at most 2 to the 31st |
| TmpfsData.Reserve | fs/tmpfs.c:103-122 | the buffer is large enough afterwards, or memory ran out, or the call never ends, exactly for needs above 2 to the 31st; the contents do not change; no block is lost if and only if not an empty file with a buffer grew |
| TmpfsData.WriteIsDoneIff | fs/tmpfs.c:319-336 | a write does what it should if and only if it ends at or below 2 to the 31st and there is room or memory |
| TmpfsData.Write | fs/tmpfs.c:319-336 | the contents become the old ones overwritten at the offset; what lies in a hole is whatever the buffer held; otherwise the call is refused, never ends or leaves the buffer, each for its exact reason |
| TmpfsData.Read | fs/tmpfs.c:301-317 | the part of the contents at the offset, cut off at the end; it leaves the buffer exactly if offset plus count wraps to within the size |
| TmpfsData.Truncate | fs/tmpfs.c:365-379 | the contents are cut off or filled up with zeros; for lengths above 2 to the 31st it never ends |
| TmpfsData.WriteThenRead | fs/tmpfs.c:301-336 | reading back at the offset gives the written data, and the bytes beside it are the old ones |
| TmpfsOps.Mount | fs/tmpfs.c:220-230 | a root directory with one use |
| TmpfsOps.LookupChild | fs/tmpfs.c:133-143 | the first child with the name, or none |
| TmpfsOps.Lookup | fs/tmpfs.c:146-170 | the node that the components lead to from the root |
| TmpfsOps.LookupParent | fs/tmpfs.c:173-208 | the directory of the last component and its name, for every path that has one; agrees with the full lookup |
| TmpfsOps.NodePut | fs/tmpfs.c:74-80 | one use fewer; the node is freed with the last |
| TmpfsOps.Open | fs/tmpfs.c:238-290 | what is created, truncated and opened for every combination of flags, types and failed allocations: a created file is found under exactly the path asked for, and only the file at the path is cut off, only if asked to |
| TmpfsOps.Close | fs/tmpfs.c:292-299 | the node is freed exactly when it is in no directory and this was its last open file |
| TmpfsOps.Mkdir | fs/tmpfs.c:404-422 | a new empty directory exactly when the name is free, its parent exists and memory lasts; then exactly its own path leads to it and no other path changes |
| TmpfsOps.Rmdir | fs/tmpfs.c:424-435 | an empty directory is removed, exactly its path leads nowhere and no other path changes; the file system stays sound if and only if it was not the mount root |
| TmpfsOps.RmdirTakesRoot | fs/tmpfs.c:424-435 | the path / of an empty file system leads to its root, and without it no state is sound |
| TmpfsOps.Unlink | fs/tmpfs.c:437-447 | the file is out of its directory, and freed unless it is open; exactly its path leads nowhere and no other path changes |
| TmpfsOps.PassesThrough | fs/tmpfs.c:449-475 | the walk up from the new parent meets the node exactly when the parent is in its subtree |
| TmpfsOps.Rename | fs/tmpfs.c:449-475 | succeeds exactly when the node exists, the target's parent exists and is outside the node's subtree; then the whole subtree moves; unique names survive if and only if the target was free or the node itself |
| TmpfsOps.RenameClobbers | fs/tmpfs.c:449-475 | two files in the root: moving one onto the other's name leaves that name twice |
| TmpfsOps.ReadFile | fs/tmpfs.c:301-317 | the data at the file's offset, which moves by as much; refused for a directory |
| TmpfsOps.WriteFile | fs/tmpfs.c:319-336 | the contents are overwritten at the offset, and only this file's; a write that is not done changes nothing |
| TmpfsOps.TruncateFile | fs/tmpfs.c:365-379 | only this file's contents change, to the wanted length |
| Tmpfs.StepNames | fs/tmpfs.c:404-475 | what a call on names leads to, in terms of path walking |
| Tmpfs.StepFiles | fs/tmpfs.c:238-379 | what a call on open files leads to |
| Tmpfs.Fs.Run | fs/tmpfs.c:238-475 | in every run the linked nodes are a tree, each count is one link plus the open files, a node is allocated exactly while linked or open, and names stay unique while no rename replaces another path |
| CacheLog.OrderIsByLastUse | driver/block/cache.c:108-158 | the keys that the log of a run leaves in the cache are those used and not dropped since, each once, in the order of their last use in that log |
| CacheLog.VictimIsOldest | driver/block/cache.c:73-90 | if each eviction takes the last entry, then each evicted block was held, and every other held block had been used later |
| CacheList.PromoteKeepsOrder | driver/block/cache.c:108-122 | moving an entry to the head is what its use does to the order of last use |
| CacheList.DeleteKeepsOrder | driver/block/cache.c:73-90 | an entry that leaves takes its key out of the order; an eviction may take only the last |
| CacheList.SeenAfterPromote | driver/block/cache.c:108-122 | moving an entry changes what is seen at no other key |
| BlockCache.FindEntry | driver/block/cache.c:46-56 | the entry of the key, or none |
| BlockCache.Lookup | driver/block/cache.c:108-122 | a hit returns what is seen and moves exactly this entry to the head, logged as a use; a miss changes nothing |
| BlockCache.Insert | driver/block/cache.c:124-158 | the exact list: an existing entry is replaced and promoted; a new one is at the head unless there is no memory, and a full cache gave up exactly its last entry, whose block is lost only if it was dirty and its write failed |
| BlockCache.EvictLru | driver/block/cache.c:73-90 | the last entry goes, written back if dirty; its block is lost exactly when that write fails |
| BlockCache.WriteBack | driver/block/cache.c:58-70 | the device has the block and the entry is clean and most recent; a failed write leaves it dirty and everything as it was |
| BlockCache.WriteOne | driver/block/block.c:105-126 | the device and then the cache have the block, and what happens on the way is exactly the device write and the insertion; a failed device write changes neither |
| BlockCache.ReadOne | driver/block/block.c:72-98 | the block that is seen at the sector; a hit promotes it, a miss reads the device and inserts it |
| BlockCache.Bread | driver/block/block.c:72-98 | the log uses exactly the sectors of the request in order and stops early only where the device fails; block i is what is seen at sector offset + i on 32-bit words unless a dirty victim was lost; in a transparent cache it is what the device holds there, and reading changes neither |
| BlockCache.Bwrite | driver/block/block.c:105-126 | the log uses exactly the first n sectors in order and stops early only where the device fails; afterwards exactly sectors offset + i with i below n show block i and all others what they showed; in a transparent cache the device ends up as without one |
| BlockCache.MarkDirty | driver/block/cache.c:160-169 | the entry is dirty and at the head, all else in the list stays, and what is seen does not change |
| BlockCache.WriteLater | driver/block/cache.c:124-169 | a delayed write is seen at once from a dirty entry at the head, while the device keeps the old block |
| BlockCache.Invalidate | driver/block/cache.c:182-195 | exactly this entry is gone, written back first if dirty, and its block is lost exactly when that write fails |
| BlockCache.DirtyAfterWriteBack | driver/block/cache.c:58-70 | a write-back makes exactly one entry fewer dirty |
| BlockCache.FlushTurn | driver/block/cache.c:171-180 | a turn makes fewer entries dirty, or goes on to the next one |
| BlockCache.Flush | driver/block/cache.c:171-180 | the walk ends although each write-back moves the entry under it to the head; exactly the dirty entries are tried, those stay dirty for which no attempt succeeded, and the result counts the successes; nothing seen changed, and if all succeeded the device holds all that is seen |
| BlockCache.DirtyAfterFlush | driver/block/cache.c:171-180 | an entry that is dirty after a flush was tried, and its last attempt failed |
| BlockCache.AllClean | driver/block/cache.c:171-180 | when every entry is clean the device holds all that is seen |
| BlockIo.CachedDevice.Read | driver/block/block.c:72-98 | reading through the cache gives, at offset + i, the blocks of the device without one and uses exactly these sectors |
| BlockIo.CachedDevice.Write | driver/block/block.c:105-126 | writing through the cache does to the device what writing without it does: exactly sectors offset + i with i below n get block i |
| BlockIo.PlainWriteIs | driver/block/block.c:105-126 | an uncached write of n blocks changes exactly sectors offset + i with i below n, on 32-bit words |
| BlockIo.CachedDevice.Run | driver/block/block.c:72-126 | in any run of reads, writes, syncs and invalidations each call is answered as by the device without a cache; at every step the list is in the order of last use in the log of the run, and every evicted block was the least recently used |
| PipeBuffer.RingPush | fs/pipe.c:74-105 | a byte stored at the head is the last of the ring |
| PipeBuffer.RingDrop | fs/pipe.c:38-70 | moving the tail drops the first bytes of the ring |
| PipeBuffer.Pipe.constructor | fs/pipe.c:16-34 | an empty pipe with one reader and one writer |
| PipeBuffer.Pipe.Read | fs/pipe.c:38-70 | the oldest bytes, in order, as many as there are and wanted; asleep exactly when more is wanted and writers are left; taking bytes wakes the writers |
| PipeBuffer.Pipe.Write | fs/pipe.c:74-105 | as much as fits goes to the end of the queue; asleep exactly when more is left and readers are left; putting bytes wakes the readers |
| PipeBuffer.Pipe.ReadNonblock | fs/pipe.c:143-171 | the same bytes, with EAGAIN and end of file told apart by the writers |
| PipeBuffer.Pipe.WriteNonblock | fs/pipe.c:173-200 | a partial write, EAGAIN exactly when full, EPIPE exactly without readers |
| PipeBuffer.Pipe.ReleaseRead | fs/pipe.c:108-121 | the last reader wakes the writers, and the pipe is freed exactly when both ends are gone and nobody sleeps |
| PipeBuffer.Pipe.ReleaseWrite | fs/pipe.c:124-137 | the last writer wakes the readers; likewise |
| PipeRuns.PipeSystem.GoRead | fs/pipe.c:38-70 | a read up to its return or next sleep is the queue's |
| PipeRuns.PipeSystem.GoWrite | fs/pipe.c:74-105 | a write up to its return or next sleep is the queue's |
| PipeRuns.PipeSystem.Do | fs/pipe.c:38-200 | each step of the ring buffer with its wait queues is the step of a queue of bytes |
| PipeRuns.PipeSystem.Run | fs/pipe.c:38-200 | in every run by any number of tasks, bytes read followed by bytes buffered are the bytes written; what a call moves from its start to its return is its data from the beginning, all of it if the other side stays; in every state a sleeping reader means empty with writers left, a sleeping writer full with readers left, never both |
| PipeRuns.WriteGoesOn | fs/pipe.c:74-105 | at any point of a write call the pieces it sent, in order, followed by what it still holds are its data; when it has returned they are a prefix of its data, and all of it if readers are left |
| PipeRuns.ReadGoesOn | fs/pipe.c:38-70 | at any point of a read call the pieces delivered and what it still wants add up to the request; it returns with less only without writers or for a signal |
| PipeRuns.CallsOfRun | fs/pipe.c:38-105 | this holds of every call of every run, and a task that starts or resumes a call returns or falls asleep |
| FdTables.RefsPlus | fs/vfs.c:232-252 | one more entry is one more reference of its file and of no other |
| FdTables.RefsMinus | fs/vfs.c:263-273 | one entry less is one reference less of its file and of no other |
| FdTables.ShareKeeps | fs/vfs.c:1060-1098 | sharing an open file keeps the counts exact |
| FdTables.CloseKeeps | fs/vfs.c:196-226 | closing keeps the counts exact and releases the file exactly when no other entry of any task points to it |
| FdTables.NoRefs | fs/vfs.c:196-226 | nothing points to a released file |
| OpenFiles.FindFdEntry | fs/vfs.c:254-261 | the entry of the descriptor, or none |
| OpenFiles.Open | fs/vfs.c:455-513 | the new file gets the descriptor next_fd, or is put back when there is none for it |
| OpenFiles.Close | fs/vfs.c:515-526 | the entry goes, and the file exactly with its last entry over all tasks |
| OpenFiles.LowestFree | fs/vfs.c:1060-1098 | the search ends and finds the lowest free descriptor at or above its bound |
| OpenFiles.DupMin | fs/vfs.c:1060-1098 | the lowest free descriptor at or above the bound shares the file |
| OpenFiles.Dup2 | fs/vfs.c:1103-1143 | newfd points where oldfd does, with the flag, after its old entry was closed; the rest of the task's table and all other tables are exactly as they were |
| OpenFiles.SetCloexecKeeps | fs/vfs.c:1219-1226 | the flag of an entry does not matter to the counts or to what descriptors point to |
| OpenFiles.CloseChosen | fs/vfs.c:1148-1156 | a closing loop closes exactly the chosen entries, in the order of the list, although it unlinks the one it stands on |
| OpenFiles.CloseRange | fs/vfs.c:1465-1479 | closes exactly the descriptors between the two bounds taken as signed numbers |
| OpenFiles.CloseRangeIsExact | fs/vfs.c:1465-1479 | that is the range asked for if and only if it ends below 2^31 or holds no open descriptor |
| OpenFiles.OpenEndedRangeClosesNothing | fs/vfs.c:1465-1479 | the range from 3 to the largest number leaves descriptor 3 open |
| OpenFiles.CopyEntries | kernel/process.c:236-262 | the child gets the same entries in the same order, with one more reference each |
| OpenFiles.Fork | kernel/process.c:155-262 | after a fork parent and child have equal tables and exact counts; after a failed one the counts are exact if and only if nothing had been copied |
| OpenFiles.LeakedCounts | kernel/process.c:155-166 | dropping a child with entries leaves some count too high |
| OpenFiles.FailedForkLeaks | kernel/process.c:155-166 | a concrete table with one entry whose file has two references after a fork failed |
| OpenFiles.PipeFds | fs/vfs.c:536-581 | two consecutive descriptors of a pipe with one reader and one writer; a failure at the write end takes back everything but the used-up number, and one at the read end leaves the pipe allocated with a writer |
| OpenFiles.CountsAreDetermined | fs/vfs.c:196-226 | the tables determine the counts and which files are allocated |
| FdRuns.Step | fs/vfs.c:455-581 | what each call makes of the tables and counts |
| FdRuns.Kernel.Run | fs/vfs.c:175-273 | in every run of open, pipe, dup, dup2, close, close_range, exec, fork and exit each call changes the entries of the caller as it should, each count equals the entries that point to the file, and a file is allocated exactly while there is one |
| FdRuns.CallMeans | fs/vfs.c:455-581 | what each call means for the set of entries of the caller: which one comes or goes, under which number, for which file and with which flag; other tasks keep theirs and a child has those of its parent |
| PathText.DenotesComponents | fs/vfs.c:53-169 | a normalised text has exactly the components of its stack, with or without a trailing slash |
| PathText.PushKeepsText | fs/vfs.c:145-156 | appending a component in the text is pushing it on the stack |
| PathText.PopKeepsText | fs/vfs.c:133-143 | running back to a slash in the text is popping the stack |
| PathText.ClampKeepsText | fs/vfs.c:133-143 | at the root, running back changes at most a trailing slash |
| PathText.CutKeepsText | fs/vfs.c:133-143 | a component that only begins with the root's last name is cut back to it |
| PathText.NormalInside | fs/vfs.c:133-143 | for a process inside its root the edit is the stack normalisation with ".." clamped at the root |
| PathText.DifferIfDips | fs/vfs.c:133-143 | for one outside, edit and normalisation agree if and only if ".." is never met at or below the root's height |
| PathText.NormalKeepsFloor | fs/vfs.c:133-143 | ".." never takes a process below its root |
| PathText.DotsInPath | fs/vfs.c:116-156 | a dot says nothing, ".." takes back the component before it, and at the floor it says nothing either |
| ResolvePath.RawComponents | fs/vfs.c:58-96 | the raw path has the components of root or current directory followed by the input's |
| ResolvePath.RawUnder | fs/vfs.c:108-114 | what a raw path that begins with the root's text can look like |
| ResolvePath.AppendComponent | fs/vfs.c:145-156 | a component is appended in place exactly when the buffer has room |
| ResolvePath.EditComponent | fs/vfs.c:123-156 | one component edited in the buffer |
| ResolvePath.Normalise | fs/vfs.c:98-169 | the buffer is never overrun, and its text denotes the normalised stack; a raw path that fits always succeeds |
| ResolvePath.Outcome | fs/vfs.c:53-169 | the edit gives the right stack if and only if the text test was right or ".." stays above the root's height |
| ResolvePath.BuildRaw | fs/vfs.c:63-96 | the raw path is built in a fixed buffer; the copy leaves it if and only if an absolute path under a chroot is too long, because its length is tested afterwards |
| ResolvePath.Resolve | fs/vfs.c:53-169 | fails exactly for raw paths that are too long; the output denotes the stack normalisation if and only if the process is inside its root, or the raw path does not begin with the root's text, or ".." stays above its height |
| ResolvePath.CanLeaveIff | fs/vfs.c:946-972 | some path takes a process out of its root if and only if its current directory is outside and short enough for a relative path |
| ResolvePath.TextPrefixIsNotInside | fs/vfs.c:108-143 | a concrete process outside its root for which ".." stops too early |
| ResolvePath.Process.Chdir | fs/vfs.c:946-972 | the current directory becomes what the path leads to; whatever the path, a process inside its root stays inside |
| ResolvePath.Process.Chroot | fs/vfs.c:998-1022 | the root becomes what the path leads to, below the old root for a process inside it; afterwards some path leads out of the new root if and only if that is not a prefix of the current directory, which is short enough for a relative path |
| ResolvePath.ChrootLeavesHome | fs/vfs.c:998-1022 | a process in /home that makes /jail its root can still get out of it |
| Mounts.MatchIsComponentPrefix | fs/vfs.c:292-317 | the text test for a mount point is the prefix test on components |
| Mounts.BestIsUnique | fs/vfs.c:292-317 | the longest match does not depend on the order of the slots |
| Mounts.FindMountPoint | fs/vfs.c:292-317 | the slot with the longest match, or none exactly when nothing matches |
| Mounts.ResolveMount | fs/vfs.c:322-333 | the mount with the most components that is a prefix, and exactly the remaining components |
| Mounts.Mount | fs/vfs.c:389-428 | a free slot is used exactly when the path is not mounted yet, the driver agrees and there is one; paths stay different |
| ExecStrings.CopyString | kernel/process.c:491-535 | the string up to its NUL, cut off at 127 bytes, byte by byte as it stands in user memory; it fails if and only if a byte up to there cannot be read |
| ExecStrings.UserWordBytes | kernel/process.c:491-535 | a word of user memory is made of its four bytes, the lowest first |
| ExecStrings.StringsOfPointers | kernel/process.c:491-535 | string k is the one that pointer k leads to, up to a NULL pointer or 31 strings |
| ExecStrings.UnreadableStrings | kernel/process.c:491-535 | when the strings cannot be had, some pointer before the end cannot be read, or its string cannot |
| ExecStrings.CopyExecStrings | kernel/process.c:491-535 | succeeds exactly when all pointers and strings can be read and fit; then the table is the strings that the pointers lead to, up to NULL or 31, packed with NULs |
| ExecStrings.PackAt | kernel/process.c:491-535 | each string stands at its offset, with its NUL |
| ExecStack.SlotsLayout | kernel/process.c:556-603 | argc, the argv pointers, NULL, the envp pointers, NULL |
| ExecStack.StoreWord | kernel/process.c:588-598 | a word stored byte by byte reads back, and nothing else changes |
| ExecStack.SetupInitialStack | kernel/process.c:556-603 | succeeds exactly when the block fits; then slots and strings lie in the two pages, 16-aligned, without overlap |
| ExecStack.StringsAtIs | kernel/process.c:556-603 | following consecutive pointers gives the strings they lead to |
| ExecStack.CountToNullIs | kernel/process.c:556-603 | the NULL behind the envp pointers is found |
| ExecStack.StackRoundTrip | kernel/process.c:556-603 | walking the block from esp recovers argc and every argv and envp string |
| ExecStack.PassArguments | kernel/process.c:659-679 | the new program gets exactly the strings of the old one's arrays, or its path when there were none; it fails exactly when an array cannot be copied |
| Scheduler.BestOther | kernel/sched.c:315-325 | the minimal nice value of the runnable tasks, or none |
| Scheduler.PickAmong | kernel/sched.c:339-363 | the first runnable task of the list with that nice value |
| Scheduler.PickIsRoundRobinIff | kernel/sched.c:339-363 | the task that is picked is the next one in turn if and only if no candidate precedes the current task in the list or none follows it |
| Scheduler.TurnIsMissed | kernel/sched.c:339-363 | a concrete list in which the first of three equal tasks is picked though it is the third one's turn |
| Scheduler.PickNextTask | kernel/sched.c:310-381 | a runnable task of minimal nice value; or the current one when nothing else is runnable or it is strictly better; or the idle task |
| Scheduler.Schedule | kernel/sched.c:383-426 | the chosen task is the only running one, of minimal nice value and strictly better than what it keeps waiting; the preempted one is ready again; each wait queue loses that task alone and keeps its order; all others are as they were |
| Scheduler.SleepOn | kernel/sched.c:262-278 | the caller is blocked at the end of the queue, behind all who were there, while another task chosen by the rule runs |
| Scheduler.WakeUp | kernel/sched.c:286-297 | every sleeper of the queue is ready, the queue is empty, and nothing else changes |
| Scheduler.Leave | kernel/signal.c:419-433 | a stopping or exiting task leaves the CPU in its new state |
| Scheduler.Continue | kernel/signal.c:234-274 | a stopped task is ready again; no other is affected |
| Scheduler.Create | kernel/sched.c:168-173 | a new task is ready at the end of the list |
| Scheduler.Reap | kernel/sched.c:299-304 | a zombie leaves the list |
| Scheduler.Cpu.Run | kernel/sched.c:262-426 | in every run, between any two steps the current task is the only running one; a sleeper stays blocked on its one queue until it runs or the queue is woken, and waking the queue makes it ready |
| Scheduler.NextMovesSleepers | kernel/sched.c:262-297 | who is on a wait queue after a step: the caller of sleep_on joins, wake_up empties its queue and makes all ready, and otherwise a task leaves only by running |
| Scheduler.RunOfSleepers | kernel/sched.c:262-297 | over a whole run a sleeper stays on its queue until it runs or is woken, and the wake-up makes it ready |
| Signals.Task.Send | kernel/signal.c:234-274 | exactly this signal becomes pending |
| Signals.Task.Sigprocmask | kernel/signal.c:140-178 | each mode adds, removes or sets exactly the bits of the mask, never SIGKILL or SIGSTOP; another mode fails and changes nothing |
| Signals.Task.Sigaction | kernel/signal.c:99-135 | one action changes, never that of SIGKILL or SIGSTOP |
| Signals.Task.Sigsuspend | kernel/signal.c:201-228 | sleeps exactly when nothing unblocked is pending, and restores the mask |
| Signals.SuspendTakesIff | kernel/signal.c:201-228 | the pass after sigsuspend takes the signal that ended it if and only if the old mask does not block it |
| Signals.SuspendMissesSignal | kernel/signal.c:201-228 | a blocked SIGTERM that the temporary mask lets through is still pending after the call |
| Signals.Task.Deliver | kernel/signal.c:437-497 | context and mask are saved and the handler runs at its address with exactly its own signal, unless SA_NODEFER, and its extra mask blocked too, or registers and mask stay when the user stack cannot be written; SA_RESETHAND alone resets the action |
| Signals.Task.DoSignal | kernel/signal.c:388-497 | what is pending afterwards is what was pending at its turn and not taken, and what arrived after its turn; the pass ends with the lowest signal that kills or whose handler can be entered; actions reset exactly for caught signals that were taken |
| Signals.PassedOver | kernel/signal.c:388-497 | a pending signal that is not blocked is passed over only if it is ignored, its default does not kill, or its handler cannot be entered |
| Signals.DefaultsAreThree | kernel/signal.c:35-71 | the default of every signal but SIGSTKFLT, SIGCHLD, SIGCONT, SIGURG and SIGWINCH terminates, or stops for SIGSTOP, SIGTSTP, SIGTTIN and SIGTTOU |
| Signals.InFlight | kernel/signal.c:437-442 | while a handler is in flight no second one starts, the saved context stays and caught signals stay pending |
| Signals.CaughtIsLostIff | kernel/signal.c:444-490 | outside a flight a caught signal whose turn comes is lost if and only if the trampoline or its frame cannot be written |
| Signals.StopRescanIff | kernel/signal.c:419-433 | a signal that arrives during a stop is handled in the same pass if and only if its number is above the stop signal's |
| Signals.KillMissesStoppedTask | kernel/signal.c:419-433 | SIGKILL that arrives while SIGSTOP has stopped the task is still pending after the pass |
| Signals.Task.Sigreturn | kernel/signal.c:344-357 | registers and mask become those put aside, and without a handler in flight it fails |
| Signals.ReturnRestores | kernel/signal.c:344-497 | in a run each sigreturn out of a handler restores instruction pointer, stack pointer, flags and mask of the state in which that handler was entered, which ran ever since |
| Signals.RunEvents | kernel/signal.c:344-497 | the states of every run follow from the events, and each sigreturn restores exactly what the matching delivery interrupted, however mask and actions changed meanwhile |
| Locks.OverlapIsSharedByte | fs/locks.c:183-191 | for all words: two ranges are found to overlap if and only if they share a byte and neither wraps to an end before the start of the other |
| Locks.WrappedRangeIsMissed | fs/locks.c:183-191 | a range that wraps is missed by one behind its end, though they share a byte, and found by one that starts before its end |
| Locks.ExclusionOfBytes | fs/locks.c:183-226 | a byte that records of different owners share is read-locked by both, unless one range wraps to an end before the start of the other |
| Locks.HolderIsReachable | fs/locks.c:113-135 | every open file that can hold a lock is in some descriptor table, so the scan finds it |
| Locks.FlockConflict | fs/locks.c:113-135 | true exactly when some other open file on the same file holds a conflicting lock |
| Locks.Flock | fs/locks.c:137-176 | granted exactly when the same lock is held or every other lock on the file and the new one are shared; exclusion is kept |
| Locks.RecordConflict | fs/locks.c:196-226 | true exactly when some other open file has a conflicting record of another owner |
| Locks.SetLock | fs/locks.c:260-346 | granted exactly when every overlapping record of another process on another open file of the file and the new one are read locks; the owner's old records on this open file are replaced by exactly the new one; exclusion is kept |
| Locks.OthersMembers | fs/locks.c:229-238 | exactly the records of other owners stay |
| Locks.ReleaseFile | fs/locks.c:242-258 | afterwards the open file holds no record and no whole-file lock, all others keep theirs, and waiters are woken exactly if it held something |
| Locks.SettleKeeps | fs/vfs.c:196-206 | after a descriptor call the locks of the released open files are gone, all others have theirs, and what is left is still exclusive |
| LockRuns.LockKernel.Run | fs/locks.c:113-346 | in every run of lock and descriptor calls, whole-file locks of different open files on one file are all shared, records of different owners that are found to overlap, and so those that share a byte without such a wrap, are read locks, and no lock outlives its open file |

## Left out

- 2 MB pages and the shared kernel half of the x86_64 page tables (user mappings are 4 KB pages throughout), and the
  64-bit ELF classes. In the four-level tables a loop level of the code is one level of a recursive method.
- Copy of device and VM_IO mappings, file-backed and shared mappings (their contents, msync and write-back), mprotect.
- The kernel's own mappings, TLB flushes, CR3 switches, interrupts, timers, devices and all assembly; files in the ELF
  loader are byte sequences and the block device is a map from sectors to blocks.
- Header checks of the ELF loader and the interpreter for flat binaries: only segment tables are modelled.
- Area and region records come from kalloc; they are not counted in the page allocator's pages, and a flag or a number
  says whether they can be had.
- kfree of blocks above 2048 bytes, and the routing of kfree by the magic word in the page header.
- tmpfs readdir, seek, stat, times and unmount; nodes are named by inode numbers, which are unbounded, with one map for
  each field, so aliasing of node pointers is not in question.
- 32-bit wrap-around of inode numbers, descriptor numbers, process ids and reference counts.
- The drivers' own open, read, write and poll operations behind an open file, and named FIFOs.
- Checks of user pointers; user memory is a function that may refuse an address.
- Whole-disk and partition device ids that name the same sectors: device ids are independent here.
- Fairness of the scheduler or of lock waiters; of lock waiters only the attempts are modelled, not the wake-ups.
- Locks between open files whose stat fails, where the code falls back to comparing names.
- A signal wakes only the wait queue of its task; interruption of other sleepers is not claimed.
- Signals.Task.Sigreturn: the restored flags register is taken over as saved; privileged bits are not examined.
- TmpfsData.Write: says nothing about the bytes of a hole, because the code leaves there what the buffer held.
- Tmpfs.Fs.Run: calls that would never end or leave the buffer (ends of files above 2^31, sums that wrap) do not happen
  in a run; TmpfsOps.WriteFile, TmpfsOps.ReadFile and TmpfsOps.TruncateFile say which those are.
- BlockIo.CachedDevice.Run: has no delayed writes, because no caller of the cache makes any; BlockCache.WriteLater and
  BlockCache.Flush cover them.
- AddressSpace.AddressSpace.SetUserWritable: user addresses only, because the kernel's own tables are not modelled.
- FourLevel.Machine.UserPresent: addresses of the user half only, because the kernel's own tables are not modelled.
- FourLevel.Machine.SetUserWritable: addresses of the user half only, because the kernel's own tables are not modelled.
