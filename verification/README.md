# A teaching kernel, modelled and verified

The repository builds a small x86 kernel in stages. This project models the four parts of it that keep
intricate state, and proves what they keep true:

* **Memory** (stages P4 and P3). Two bitmap frame pools, a two-level page table that edits itself through
  its own last directory slot, and virtual-memory pools, all over one flat array of 32 MB of words. Bitmaps,
  directory and tables are words of that array, so the invariant `Paging.WellFormed` ties them together:
  every used process frame has exactly one owner (hole, directory, first table, a table, a page), and the
  entry that names it is where its owner says. Address translation follows section 4.3, and error codes
  section 4.7, of the Intel 64 and IA-32 Software Developer's Manual, Volume 3A. `KernelBoot.BootMemory`
  reaches the invariant from any memory, in the order the kernel boots.
* **Threads** (stage P6). The scheduler's two linked queues, relinked in place; the steps Preempt, Block and
  Drop over them; the disk lock; the context switch, instruction by instruction; the stack of a new thread.
* **Files** (stage P6). One file per 512-byte block, an index in memory, one shared block buffer.
* **Console** (stage P4). A 25 by 80 buffer of bytes in display memory, against an unbounded page.

Objects that the kernel updates in place are classes over arrays and linked nodes; each method is proved
equal to a function of the old state, and the properties are lemmas about those functions.
`dafny verify dfyconfig.toml` covers the whole project.

| area | files |
|---|---|
| bits and memory | `Bits`, `PhysicalMemory` |
| frame pools | `FramePools`, `FrameAllocator`, `FrameRuns` |
| paging | `Paging`, `Translation`, `Accounting`, `Faults`, `PageRelease`, `PagingWrites`, `WindowFaults`, `PageRuns`, `RegionPages`, `DirectPaging`, `DirectRuns`, `DirectTables`, `TableSetup`, `SelfMapAccess` |
| pools, objects, boot | `Regions`, `MemoryRuns`, `MemoryManager`, `KernelBoot` |
| threads | `Scheduling`, `LinkedScheduler`, `DiskLock`, `ContextFrames`, `ContextSwitch`, `SwitchRuns`, `NewThreads` |
| files | `DiskBlocks`, `FileContents`, `FileIndex`, `FileRuns`, `FileSystems` |
| console | `MemoryCopy`, `ConsolePage`, `Console` |

## Where the code departs from its purpose

Members named `...AsCoded` model the code as it stands; a lemma says exactly when it does what it is for.
Theorems over runs are about the intended operation.

* Page release hands the whole page-table entry, flags included, to `release_frame`, which refuses it:
  every release of a mapped page loses a frame (`PageRelease.FreePageAsCodedLeaks`).
* Splitting a region that is reused overwrites the last region (`Regions.AsCodedTiles`, `Regions.AsCodedCut`), and on a full
  table moves the last index off the array. A request within a page of 4 GB rounds to 0
  (`Regions.RoundUpCovers`). The last region of a full table can never be released
  (`Regions.ReleaseUndoesAllocate`). Region ends are 32-bit sums: in a pool that ends at 4 GB the tiling and
  the legitimacy test fail (`Regions.RunsTileExactly`, `Regions.ScanExactly`). Spare region slots are never
  initialised; the legitimacy test is right exactly when each of them is available or holds no address
  (`Regions.StaleSlotsExactly`).
* The loop of `VMPool::release` indexes the region array with an address, which is undefined; only the
  intended loop is modelled.
* The stage P3 fault handler loses a frame when it needs two and one is left (`DirectPaging.HandlersAgree`, `DirectRuns.DirectFaultTheorem`).
* A fault in the window of an absent table makes the next free frame that table without clearing it, so
  that the words it holds become entries (`WindowFaults.WindowFaultInstallsStaleTable`). Frames stay exclusive
  and add up after it exactly when none of those words is a present entry (`WindowFaults.FaultKeepsExactly`).
  Releasing a page whose table is absent takes such a fault first, and then gives away whatever frame the
  stale entry names (`WindowFaults.AbsentRelease`), the directory included
  (`WindowFaults.StaleEntryFreesDirectory`); `WindowFaults.FreePageKeepsExactly` says when that does no harm.
* `release_frame` looks for the process pool's information frame in the wrong pool, so that frame can be
  given away (`FrameRuns.GiveBackKeepsReserved`). The frame-pool constructor's own search never succeeds
  (`FrameAllocator.SearchTestNeverSucceeds`).
* A thread that blocks, or ends, with no other ready keeps the processor while it stands in the blocked
  queue, or lives on (`Scheduling.BlockKeepsExactlyWhenReady`, `Scheduling.DropRemovesExactlyWhenReady`).
* The disk's busy flag is never initialised; if it starts up nobody ever gets in (`DiskLock.SomeoneCanEnter`).
* `AllocateBlock` looks one block behind the one it hands out: once block 0 is used it hands out the same
  block for ever (`FileRuns.AsCodedRepeatsExactly`, `FileRuns.CreateAsCodedAgreesExactly`). `DeleteFile` does
  not free the block of the last file, which comes back at the next mount, and always answers false
  (`FileIndex.DeleteAsCodedAgreesExactly`). Writing no bytes writes the shared buffer's old contents into
  the file (`FileContents.File.Write`).

## Model

| member | source | states |
|---|---|---|
| FramePools.SetBitEffect | P4/P4-provided-code/frame_pool.C:86-96 | Setting one bit by a byte update disturbs no other frame of either pool |
| FramePools.ClearBitEffect | P4/P4-provided-code/frame_pool.C:113-144 | Clearing one bit by a byte update disturbs no other frame of either pool |
| FramePools.LeastFree | P4/P4-provided-code/frame_pool.C:86-96 | The search finds the least clear bit, or none exactly when all are set |
| FramePools.GetFrameRefinesSet | P4/P4-provided-code/frame_pool.C:86-96 | Taking a frame is choosing the least unused one of a set and adding it; 0, and no change, exactly when the set is full |
| FramePools.ReleaseRefinesSet | P4/P4-provided-code/frame_pool.C:113-144 | Releasing removes exactly that frame from the frames used in both pools, and nothing when it is in the hole, outside both pools, or refused as information frame |
| FramePools.SetBitStaysInBitmap | P4/P4-provided-code/frame_pool.C:86-96 | Marking a frame writes only words of the pool's bitmap |
| FrameAllocator.SearchTestNeverSucceeds | P4/P4-provided-code/frame_pool.C:61-69 | The constructor's test for a free frame is false for every byte and bit |
| FrameAllocator.FramePool.constructor | P4/P4-provided-code/frame_pool.C:28-84 | Clears the pool's bitmap in its information frame, marks that frame in the kernel pool, and records bitmap and frame in the class |
| FrameAllocator.FramePool.GetFrame | P4/P4-provided-code/frame_pool.C:86-96 | The loop over bitmap bytes leaves memory and result as the least-free-bit specification does |
| FrameAllocator.FramePool.MarkInaccessible | P4/P4-provided-code/frame_pool.C:98-111 | Refuses a range outside the pool; otherwise sets exactly the bits of the range, and for an empty range changes nothing |
| FrameAllocator.FramePool.ReleaseFrame | P4/P4-provided-code/frame_pool.C:113-144 | Works on whichever pool holds the frame, and reports whether it was released |
| FrameRuns.Boot | P4/P4-provided-code/kernel.C:132-139 | After the two pools are built and the hole marked, the frames in use are exactly the two bitmaps' and the hole |
| FrameRuns.BootAccounted | P4/P4-provided-code/kernel.C:132-139 | After boot the frames in use are exactly the reserved ones, none out with a client |
| FrameRuns.TakeKeepsAccount | P4/P4-provided-code/frame_pool.C:86-96 | A frame handed out is in its pool, not reserved and not already out; none is handed out exactly when every frame of the pool is |
| FrameRuns.GiveBackKeepsReserved | P4/P4-provided-code/frame_pool.C:113-144 | A release keeps every reserved frame marked exactly when it is not of the frame holding the process bitmap |
| FrameRuns.StepKeepsAccount | P4/P4-provided-code/frame_pool.C:86-144 | Every request or release keeps the used bits equal to the reserved frames and those out with clients, which a request adds to and a release takes from; kernel frames lie from 2 MB to 4 MB, process frames from 4 MB to 32 MB, and no byte of either from 15 MB to 16 MB |
| FrameRuns.RunsHandOutFreshFrames | P4/P4-provided-code/frame_pool.C:86-144 | Over every run that never releases the process bitmap's frame, no step hands out a hole frame, an information frame, a frame already out, or any byte from 15 MB to 16 MB |
| Paging.InstallTableKeeps | P4/P4-provided-code/page_table.C:115-127 | Entering a cleared table in the directory keeps the paging invariant |
| Paging.NewTableKeeps | P4/P4-provided-code/page_table.C:94-127 | Any free frame without present words, entered in an absent slot, keeps the paging invariant, whatever the other flags of the entry |
| Paging.MapPageKeeps | P4/P4-provided-code/page_table.C:104-111 | Entering a page in a table keeps the paging invariant |
| Paging.UnmapPageKeeps | P4/P4-provided-code/page_table.C:152-155 | Emptying an entry and freeing its frame keeps the paging invariant |
| Translation.OnlyPageTranslatesAnew | P4/P4-provided-code/page_table.C:94-96 | A change of one page's mapping changes the translation of that page's addresses and of no other address |
| Translation.InstallTableTranslates | P4/P4-provided-code/page_table.C:115-127 | A new table maps one page of the whole address space: its own window |
| Translation.NewTableTranslates | P4/P4-provided-code/page_table.C:94-127 | So does any new table without present words |
| Translation.MapPageTranslates | P4/P4-provided-code/page_table.C:104-111 | A new entry maps its page and no other |
| Translation.UnmapPageTranslates | P4/P4-provided-code/page_table.C:152-155 | An emptied entry unmaps its page and no other |
| Translation.MappedFrameIsOwned | P4/P4-provided-code/page_table.C:104-139 | A page mapped outside the first and last 4 MB lies in a pool frame owned as that page |
| Translation.OrdinaryTranslationInjective | P4/P4-provided-code/page_table.C:104-139 | Two addresses outside the first and last 4 MB reach one byte only if they are equal |
| Translation.StoreIsSeparate | P4/P4-provided-code/page_table.C:102-139 | A store through any mapped pool address alters no directory, table or bitmap: same owners, same mappings, same frames in use |
| Translation.DirectoryWindow | P4/P4-provided-code/page_table.C:96 | Through the self-map, 0xFFFFF000 + 4d is directory word d |
| Translation.TableWindow | P4/P4-provided-code/page_table.C:103 | Through the self-map, 0xFFC00000 + 4096d + 4t is word t of table d, and is mapped exactly when that table is present |
| Translation.IdentityTranslates | P4/P4-provided-code/page_table.C:43-56 | The first 4 MB, bitmaps included, translate to themselves in every well-formed state |
| Accounting.FramesAreExclusive | P4/P4-provided-code/page_table.C:80-156 | No two present table or page entries name the same frame |
| Accounting.NamedFrameOwned | P4/P4-provided-code/page_table.C:80-156 | A frame an entry names is a used pool frame, neither in the hole nor the directory nor the first table |
| Accounting.UsedFramesPartition | P4/P4-provided-code/page_table.C:43-156 | The frames in use are exactly the hole, the directory, the first table and the frames named by present entries |
| Accounting.FramesAddUp | P4/P4-provided-code/page_table.C:43-156 | Used frames = hole + directory + first table + present tables + present pages |
| Accounting.LeakedFrame | P4/P4-provided-code/page_table.C:146-156 | A used frame that nothing names rules out every assignment of owners |
| Accounting.WellFormedIsConsistent | P4/P4-provided-code/page_table.C:80-156 | In every well-formed state no two entries name one frame, and the used frames are as many as what uses them |
| Accounting.LinkedExactly | P4/P4-provided-code/page_table.C:94-156 | After a free frame is entered uncleared as a table, and the marks of given frames are cleared, frames are exclusive and add up exactly when no word of the frame is a present entry and none of the given frames was in use; otherwise no assignment of owners is possible |
| Faults.AddPageTheorem | P4/P4-provided-code/page_table.C:102-113 | With the table present, the page is mapped to a free frame exactly when there is one, and no other page changes |
| Faults.FaultTheorem | P4/P4-provided-code/page_table.C:80-144 | A not-present fault maps the page exactly when one frame (two, if a table is needed) is free, to frames that were free; over the whole address space only that page, and the window of a new table, change; the invariant is kept in every outcome |
| Faults.FaultEntries | P4/P4-provided-code/page_table.C:102-139 | The entry of a page just mapped is present, user-level and writable; that of a new table present, supervisor-level and writable, and the table's other entries are 0 |
| PagingWrites.FaultWritesOnlyUsed | P4/P4-provided-code/page_table.C:94-142 | Every word one call of the handler changes is in the bitmap or in a frame marked used |
| PagingWrites.FreePageWritesOnlyUsed | P4/P4-provided-code/page_table.C:146-156 | Every word the intended release changes is in the bitmap or in a frame that stays used |
| PagingWrites.ConstructorWritesOnlyUsed | P4/P4-provided-code/page_table.C:43-68 | Every word the constructor changes is in one of the two bitmaps or in a process frame marked used |
| WindowFaults.WindowFaultInstallsStaleTable | P4/P4-provided-code/page_table.C:101-112 | A fault on the window of an absent table makes an uncleared frame that table |
| WindowFaults.FaultKeepsExactly | P4/P4-provided-code/page_table.C:94-142 | After a not-present fault at any address frames are exclusive and add up, and some assignment of owners makes the state well formed, exactly when the address lies outside the first and last 4 MB or the frame handed out next, if any, holds no present entry |
| WindowFaults.WindowFaultTranslates | P4/P4-provided-code/page_table.C:101-112 | With that frame clean, such a fault maps one page of the whole address space, the window of the table it enters, and writes only the bitmap and used frames |
| WindowFaults.FreePageKeepsExactly | P4/P4-provided-code/page_table.C:146-156 | A release finishes exactly when the page's table is present or a frame is free. With the table absent frames are then exclusive and add up exactly when the frame taken for it holds no present entry but the one released, and that one gives away no process frame in use; with the table present the invariant is kept unless, as coded, the page was mapped |
| WindowFaults.AbsentRelease | P4/P4-provided-code/page_table.C:146-156 | With the table absent, the release makes the next free frame the table, with the words it holds but for the entry released, which becomes 0, and clears the mark of whatever frame that entry names, in either pool |
| WindowFaults.StaleEntryFreesDirectory | P4/P4-provided-code/page_table.C:146-156 | If that stale entry names the directory, the frame of the directory in use is back in the pool |
| PageRelease.FreePageTheorem | P4/P4-provided-code/page_table.C:146-156 | The intended release unmaps exactly that page, frees exactly its frame, and keeps the invariant; an unmapped page is left alone |
| PageRelease.FlaggedAddressRefused | P4/P4-provided-code/page_table.C:153 | A present entry taken as a frame number is always refused by release_frame |
| PageRelease.FreePageAsCodedLeaks | P4/P4-provided-code/page_table.C:146-156 | As coded the page is unmapped, and no other, but no frame is ever freed; frames can still be accounted for exactly when there was no page to free |
| PageRuns.StepKeeps | P4/P4-provided-code/page_table.C:80-156 | Each fault, release or store keeps the paging invariant, those in the windows of absent tables included when the frame they take is clean |
| PageRuns.StepDoes | P4/P4-provided-code/page_table.C:80-156 | A fault maps its page exactly when the frames it needs are free, a release leaves its page unmapped, and a store changes one word |
| PageRuns.RunsStayConsistent | P4/P4-provided-code/page_table.C:80-156 | At every point of every run of faults at any address, releases and stores, frames are exclusive and add up, provided each frame made a table through its window is clean |
| PageRuns.RunsWriteOnlyUsed | P4/P4-provided-code/page_table.C:80-156 | Over every run of faults, releases and stores, each step writes only in the bitmap and in frames marked used |
| RegionPages.FreePagesTheorem | P4/P4-provided-code/vm_pool.C:118-126 | Releasing a region, its tables there or not, unmaps exactly its pages, keeps every table where it is, installs a table for each slot without one, and frees exactly the frames its pages held, but for those of the new tables |
| RegionPages.PresentTablesGo | P4/P4-provided-code/vm_pool.C:118-126 | A region whose tables are present can be released page by page, to the end |
| RegionPages.TouchAllKeeps | P4/P4-provided-code/page_table.C:80-144 | Faults inside a region leave every page outside it (last 4 MB apart) mapped as before, and every open table window on its table |
| RegionPages.TouchAllMaps | P4/P4-provided-code/page_table.C:94-142 | After faults on a list of pages each of them is mapped, unless fewer than two frames are left |
| RegionPages.RegionLeavesNoPages | P4/P4-provided-code/vm_pool.C:109-127 | A region touched on any of its pages and then released leaves mapped what was mapped before, every old table in place, and as frames in use those of before and those of the new tables |
| MemoryRuns.RunsStayJoined | P4/P4-provided-code/vm_pool.C:44-127 | Over every run of requests, faults at live addresses and releases of a pool, with other pools and programs faulting, releasing and storing elsewhere, memory stays well formed, the regions tile the pool, and every page mapped in its range lies in a live region |
| MemoryRuns.DoneDoes | P4/P4-provided-code/vm_pool.C:44-127 | In such a run a request makes live just the bytes it is given, a fault maps its page exactly when the frames it needs are free, and giving up a region ends its addresses and unmaps just its pages |
| MemoryRuns.NewPoolJoins | P4/P4-provided-code/vm_pool.C:30-42 | A new pool none of whose pages is mapped starts in such a state |
| MemoryRuns.NothingLiveNothingHeld | P4/P4-provided-code/vm_pool.C:109-127 | Whenever no region of the pool is live, none of its pages is mapped and no frame is owned as one of them |
| DirectPaging.HandlersAgree | P3/P3-provided-code/page_table.C:74-126 | The direct handler and the self-mapping one leave the same memory and outcome unless a table is needed with exactly one frame free; then the direct one loses that frame |
| DirectPaging.LateEntry | P3/P3-provided-code/page_table.C:97-121 | Entering a table before or after clearing it leaves the same memory |
| DirectRuns.DirectFaultTheorem | P3/P3-provided-code/page_table.C:74-126 | With tables in kernel frames and pages in process frames, a not-present fault maps the page exactly when a process frame, and a kernel frame if a table is needed, are free; that page alone changes over the whole address space; a table taken without a page frame stays used and unentered |
| DirectRuns.DirectRunsStayArranged | P3/P3-provided-code/page_table.C:74-126 | Over every run of faults, tables and pages keep used frames of their own, apart from bitmaps and directory, and the first 4 MB stand |
| DirectTables.LowAddressesStand | P3/P3-provided-code/page_table.C:81-93 | The physical addresses the handler uses translate to themselves |
| DirectTables.BuiltIsArranged | P3/P3-provided-code/page_table.C:42-62 | The constructor's tables map the first 4 MB to itself and nothing else |
| DirectTables.DirectPageTable.constructor | P3/P3-provided-code/page_table.C:42-62 | Two kernel frames and three loops give an arranged page table |
| DirectTables.DirectPageTable.HandleFault | P3/P3-provided-code/page_table.C:74-126 | The handler's physical loads and stores are its specification, and keep the arrangement |
| DirectTables.DirectPageTable.ClearTable | P3/P3-provided-code/page_table.C:107-110 | The clearing loop empties exactly that frame |
| TableSetup.BuildTablesWord | P4/P4-provided-code/page_table.C:43-64 | What each word of memory is after the constructor's loops |
| TableSetup.BuiltIsWellFormed | P4/P4-provided-code/page_table.C:43-68 | The constructor's tables satisfy the paging invariant and map the first 4 MB, the self-map, and nothing else |
| TableSetup.TwoFrames | P4/P4-provided-code/page_table.C:44-47 | The constructor's two frames are distinct, in the pool and outside the hole |
| SelfMapAccess.NewTableOpensWindow | P4/P4-provided-code/page_table.C:121-127 | A new table's own window is open as soon as its directory entry is written, all through the clearing |
| SelfMapAccess.SlotHandles | P4/P4-provided-code/page_table.C:94-103 | In every well-formed state the handler can work at any directory slot |
| SelfMapAccess.UnmappedNotRoot | P4/P4-provided-code/page_table.C:102-112 | A fault whose table is the directory itself never overwrites the self-map entry |
| MemoryManager.Machine.Load | P4/P4-provided-code/page_table.C:102 | A load reads the word its address translates to |
| MemoryManager.Machine.Store | P4/P4-provided-code/page_table.C:110 | A store changes the word its address translated to, and no other |
| MemoryManager.PageTable.constructor | P4/P4-provided-code/page_table.C:43-68 | Builds a valid page table mapping just the first 4 MB and itself, from exactly two process frames, writing only in the bitmaps and used frames |
| MemoryManager.PageTable.FillTables | P4/P4-provided-code/page_table.C:49-64 | The constructor's loops write exactly the specified tables |
| MemoryManager.PageTable.LoadDirectory | P4/P4-provided-code/page_table.C:70-73 | This directory translates from now on; nothing else changes |
| MemoryManager.PageTable.HandleFault | P4/P4-provided-code/page_table.C:80-144 | All edits go through the self-map, and leave memory as the handler written on physical memory does; an address no pool allows is reported and served all the same; the page table stays valid exactly when the fault is a protection fault, or the address lies outside the first and last 4 MB, or the frame handed out next, if any, holds no present entry |
| MemoryManager.PageTable.ServeFault | P4/P4-provided-code/page_table.C:101-142 | The not-present branch through 0xFFFFF000 and 0xFFC00000 equals its physical form |
| MemoryManager.PageTable.ClearTableThroughWindow | P4/P4-provided-code/page_table.C:124-127 | Clearing the new table through its window clears its frame, the window staying open |
| MemoryManager.PageTable.FreePage | P4/P4-provided-code/page_table.C:146-156 | The intended release through the window, with the fault it takes when the table is absent; outside the first and last 4 MB the page table stays valid exactly when the release never finishes, or the table was present, or `WindowFaults.FreeKeeps` holds of the frame taken and the stale entry |
| MemoryManager.PageTable.FreePageAsCoded | P4/P4-provided-code/page_table.C:146-156 | The same with the entry passed whole; with the table present it stays valid exactly when the page was not mapped |
| MemoryManager.PageTable.RegisterPool | P4/P4-provided-code/page_table.C:158-166 | Appends the pool unless the list is full, in which case nothing changes |
| MemoryManager.PageTable.SomePoolAllows | P4/P4-provided-code/page_table.C:84-92 | Finds a pool exactly when some registered pool has an allocated region with the address |
| MemoryManager.VMPool.constructor | P4/P4-provided-code/vm_pool.C:30-42 | One available region, the whole pool, and the pool registered |
| MemoryManager.VMPool.Allocate | P4/P4-provided-code/vm_pool.C:44-107 | The in-place search, shift and split (as intended) equal the table specification, on the size rounded to pages |
| MemoryManager.VMPool.AllocateAsCoded | P4/P4-provided-code/vm_pool.C:44-107 | The same search with the shift, base and guard as written, on any table, full or not |
| MemoryManager.VMPool.OpenSlot | P4/P4-provided-code/vm_pool.C:58-62 | The shifting loop moves the regions above a slot up by one |
| MemoryManager.VMPool.Release | P4/P4-provided-code/vm_pool.C:109-127 | Frees every page of the region found, whether or not its table is there, marks the region available, and reloads the directory; nothing when none is found |
| MemoryManager.VMPool.IsLegitimate | P4/P4-provided-code/vm_pool.C:129-138 | The scan of every slot, with 32-bit region ends |
| KernelBoot.BootMemory | P4/P4-provided-code/kernel.C:132-153 | From any memory, boot leaves a valid, loaded page table and two pools that each tile their range, with nothing of it mapped, so that the runs of `MemoryRuns` start there |
| Regions.InitialTiles | P4/P4-provided-code/vm_pool.C:36-40 | A new pool tiles its range with nothing live |
| Regions.AtMostOneRegion | P4/P4-provided-code/vm_pool.C:129-138 | No address lies in two regions |
| Regions.SomeRegion | P4/P4-provided-code/vm_pool.C:129-138 | Every address of the range lies in a region |
| Regions.ScanExactly | P4/P4-provided-code/vm_pool.C:129-138 | Over any cover of the range and any spare slots, the scan answers exactly for addresses in allocated regions if and only if the pool ends below 4 GB or its last region is available, and each spare slot is available, empty, or inside the range and clear of available regions |
| Regions.StaleSlotsExactly | P4/P4-provided-code/vm_pool.C:30-42 | On a pool over uninitialised slots, the legitimacy test is right, now and at every point of every run, exactly when every spare slot is available or holds no address |
| Regions.CutCovers | P4/P4-provided-code/vm_pool.C:52-68 | A region cut in two, the rest put after it, keeps the cover of the range |
| Regions.AllocateCovers | P4/P4-provided-code/vm_pool.C:44-107 | An allocation keeps the cover exactly when it does not take the whole top of a pool that ends at 4 GB; spare slots beyond stay as they were |
| Regions.AllocateTheorem | P4/P4-provided-code/vm_pool.C:44-107 | First fit: 0 exactly when no single available region is large enough; otherwise a page address in the range whose bytes were live for nobody and are live now, all else unchanged; the cover kept but for the 4 GB case; it is the first region that fits, cut to the request unless all 341 slots are in use |
| Regions.AsCodedTiles | P4/P4-provided-code/vm_pool.C:49-76 | As coded the regions still tile the range exactly when the region reused needs no cut (and the 4 GB case apart); without a cut it is the intended allocation; the last index leaves the table exactly on a cut in a full one |
| Regions.AsCodedCut | P4/P4-provided-code/vm_pool.C:48-79 | A cut as coded returns the intended address and makes its bytes live, but every address of the last region stops being live, and the free rest is put down at that region's base (in place only when the region cut was the one before it) |
| Regions.RoundUpCovers | P4/P4-provided-code/vm_pool.C:47 | Rounding covers the request exactly up to 0xFFFFF000 bytes, and is 0 above |
| Regions.ReleaseTheorem | P4/P4-provided-code/vm_pool.C:109-127 | Release ends exactly the region found at its address, and keeps the tiling |
| Regions.NonEmptyKept | P4/P4-provided-code/vm_pool.C:44-127 | Requests for some bytes, and releases, leave no region but the last empty |
| Regions.ReleaseUndoesAllocate | P4/P4-provided-code/vm_pool.C:44-127 | Releasing a new allocation undoes it exactly when it is not in the last slot of a full table |
| Regions.RunsTile | P4/P4-provided-code/vm_pool.C:44-127 | At every point of every run of requests and releases, the regions of a pool that ends below 4 GB tile its range in order, in whole pages |
| Regions.StepLives | P4/P4-provided-code/vm_pool.C:44-127 | Each request of a run makes live exactly the bytes it is given, and each release ends exactly those of the region found |
| Regions.RunsTileExactly | P4/P4-provided-code/vm_pool.C:44-127 | Every run on a new pool tiles it exactly when the pool ends below 4 GB |
| Scheduling.PreemptKeeps | P6/P6-provided-code/scheduler.C:9-71 | resume then yield keeps every thread, each in exactly one place |
| Scheduling.BlockKeepsExactlyWhenReady | P6/P6-provided-code/scheduler.C:9-81 | resumeBlocked then yield puts the thread at the back of the blocked queue, and keeps each thread in one place exactly when someone was ready; otherwise the thread is queued once and goes on running |
| Scheduling.DropRemovesExactlyWhenReady | P6/P6-provided-code/scheduler.C:93-122 | A thread that ends is gone exactly when someone was ready, nobody else touched and the disk waiters in their order; with no one ready nothing changes at all |
| Scheduling.StepMovesUp | P6/P6-provided-code/scheduler.C:9-122 | After any step a ready thread runs, or 2p + b has strictly decreased for it |
| Scheduling.ReadyThreadRuns | P6/P6-provided-code/scheduler.C:9-122 | A thread at ready position p with b blocked threads runs within 2p + b + 1 steps, whatever the steps, though every preemption lets a disk waiter jump the queue |
| Scheduling.BoundIsTight | P6/P6-provided-code/scheduler.C:54-71 | For every such state there is a run of 2p + b steps in which it does not run |
| Scheduling.BlockedMovesUp | P6/P6-provided-code/scheduler.C:40-81 | While someone is ready whenever a thread blocks or ends, each preemption moves a blocked thread up one place or runs it, and every other step shortens the ready queue |
| Scheduling.BlockedRunsExactly | P6/P6-provided-code/scheduler.C:40-81 | In every such run the thread at blocked position q is dispatched exactly when the run holds more than q preemptions |
| Scheduling.BlockedThreadRuns | P6/P6-provided-code/scheduler.C:40-81 | With a steady thread and n threads in all, the thread at blocked position q runs within qn + r + 1 steps |
| Scheduling.StrandedWithoutSteady | P6/P6-provided-code/blocking_disk.C:8-16 | With no one ready, a thread that keeps waiting for the disk leaves the blocked ones where they are for ever |
| LinkedScheduler.Scheduler.constructor | P6/P6-provided-code/scheduler.C:3-7 | Two empty lists |
| LinkedScheduler.Scheduler.Enqueue | P6/P6-provided-code/scheduler.C:26-38 | The walk to the last node appends the thread to the ready queue; lists stay acyclic and apart, counters exact |
| LinkedScheduler.Scheduler.EnqueueBlocked | P6/P6-provided-code/scheduler.C:40-52 | The same for the blocked queue |
| LinkedScheduler.Scheduler.Resume | P6/P6-provided-code/scheduler.C:54-71 | The ready queue becomes the first blocked thread, the old queue, then the thread |
| LinkedScheduler.Scheduler.MoveFirstBlocked | P6/P6-provided-code/scheduler.C:58-70 | The first blocked node is moved, not copied, to the front |
| LinkedScheduler.Scheduler.ResumeBlocked | P6/P6-provided-code/scheduler.C:73-81 | The thread joins the back of the blocked queue, once, and nothing else changes |
| LinkedScheduler.Scheduler.Add | P6/P6-provided-code/scheduler.C:83-91 | The thread joins the ready queue |
| LinkedScheduler.Scheduler.Yield | P6/P6-provided-code/scheduler.C:9-24 | The head runs and leaves the queue; with no one ready the caller goes on |
| LinkedScheduler.Scheduler.Terminate | P6/P6-provided-code/scheduler.C:93-122 | Unlinks the first ready node with the thread's id, if any, and yields |
| LinkedScheduler.Scheduler.PreemptCurrent | P6/P6-provided-code/scheduler.C:9-71 | The pair resume, yield on the lists is the Preempt step |
| LinkedScheduler.Scheduler.BlockCurrent | P6/P6-provided-code/blocking_disk.C:8-16 | The pair resumeBlocked, yield on the lists is the Block step |
| LinkedScheduler.Scheduler.DropCurrent | P6/P6-provided-code/scheduler.C:93-122 | terminate on the lists is the Drop step, when ids are unique |
| LinkedScheduler.WithoutIdIsWithout | P6/P6-provided-code/scheduler.C:93-122 | Removing by id is removing the thread, when ids are unique |
| DiskLock.AtMostOneInside | P6/P6-provided-code/blocking_disk.H:11-25 | Over every run at most one thread is between Lock and Unlock, and the flag is up exactly then, though the holder yields inside |
| DiskLock.SomeoneCanEnter | P6/P6-provided-code/blocking_disk.H:11-28 | Some run lets a thread in exactly when the flag starts down |
| DiskLock.RunRefinesScheduler | P6/P6-provided-code/blocking_disk.H:11-25 | Every run of the lock is the run of the scheduler that its ticks, waits, ends and failed tries make, and the flag is up after a try and down after a release |
| DiskLock.OtherGetsInExactly | P6/P6-provided-code/blocking_disk.H:11-25 | Over every run a thread other than the holder gets in exactly when it tries after a release, before anyone has tried again |
| DiskLock.HandOver | P6/P6-provided-code/blocking_disk.H:11-25 | With no one blocked, after a release and a tick the head of the ready queue tries and is the one inside |
| DiskLock.HolderWaits | P6/P6-provided-code/blocking_disk.C:8-16 | A holder that waits for the disk stays inside, at the back of the blocked queue |
| DiskLock.HeldStep | P6/P6-provided-code/blocking_disk.H:11-20 | While the holder is blocked and a waiter spins, every action runs the holder or brings it nearer |
| DiskLock.SpinningFreesTheHolder | P6/P6-provided-code/blocking_disk.C:8-28 | A waiter that keeps trying brings a blocked holder back onto the processor within qn + r + 1 actions |
| DiskLock.HolderRunsExactly | P6/P6-provided-code/blocking_disk.C:8-28 | While someone is ready whenever a thread ends, a holder at blocked position q runs exactly when waiters and timer have gone round more than q times |
| ContextFrames.FrameRoundTrip | P6/P6-provided-code/threads_low.asm:31-48 | The restore sequence reads back every register the save sequence stored |
| ContextFrames.StatusKeepsControl | P6/P6-provided-code/threads_low.asm:64-88 | The arithmetic around pushfd sets the six status flags and leaves every other bit of EFLAGS as it was, the interrupt flag among them |
| ContextSwitch.Cpu.MoveReturnAddress | P6/P6-provided-code/threads_low.asm:80-88 | The return address ends two words lower, under the flags and the code segment, and eax is as it was |
| ContextSwitch.Cpu.SaveContext | P6/P6-provided-code/threads_low.asm:80-95 | The whole saved frame, word for word, and nothing else on the stack |
| ContextSwitch.Cpu.RestoreRegisters | P6/P6-provided-code/threads_low.asm:112-116 | Every register comes from its word of the frame |
| ContextSwitch.Cpu.SwitchTo | P6/P6-provided-code/threads_low.asm:56-116 | Full switch: the memory and registers afterwards, for every state; the flags stored agree with the caller's in every bit but the six status flags |
| ContextSwitch.Cpu.EnterFirst | P6/P6-provided-code/threads_low.asm:118-134 | First switch: only current_thread changes in memory |
| SwitchRuns.SwitchSaves | P6/P6-provided-code/threads_low.asm:56-108 | Switching out leaves on the caller's own stack what it needs to resume |
| SwitchRuns.SwitchLeavesOthers | P6/P6-provided-code/threads_low.asm:56-134 | A switch between two threads leaves a third one's saved context alone |
| SwitchRuns.RunKeeps | P6/P6-provided-code/threads_low.asm:56-134 | A thread that is out stays saved over any run of others' computing and switching |
| SwitchRuns.RunLeavesStack | P6/P6-provided-code/threads_low.asm:56-134 | Over any such run every word of its stack stays as it was |
| SwitchRuns.RoundTrip | P6/P6-provided-code/threads_low.asm:31-134 | Switched out and, after any such run, back in, a thread has its general and segment registers, every bit of EFLAGS but the six status flags, its return address, its stack pointer as if the call had returned, and every word of its stack above the return address |
| SwitchRuns.SelfSwitch | P6/P6-provided-code/scheduler.C:9-71 | A thread that switches to itself, as a lone thread does at each tick, resumes at once with the same registers and EFLAGS bits, its stack above the return address as it was |
| NewThreads.Thread.SetupContext | P6/P6-provided-code/thread.C:83-154 | The pushes leave exactly the frame that the restore sequence takes, with both return addresses above it |
| NewThreads.Thread.constructor | P6/P6-provided-code/thread.C:160-183 | The thread object's fields, its initial stack, the stored stack pointer, and the next id |
| NewThreads.NewThreadKeeps | P6/P6-provided-code/thread.C:83-183 | A new thread on its own stack is a saved thread, so the round-trip results hold for it |
| NewThreads.FirstDispatch | P6/P6-provided-code/thread.C:73-154 | Entered from the start-up code, it starts at thread_start with the interrupt flag clear; that returns into the thread function, and that into thread_shutdown |
| NewThreads.FirstSwitch | P6/P6-provided-code/thread.C:73-154 | The same when another thread enters it by a full switch |
| NewThreads.FirstEntry | P6/P6-provided-code/thread.C:73-202 | A new thread first entered from another, after any run of moves without it, starts at thread_start with EFLAGS clear, code segment 8, data segments 16 and its other registers 0, both return addresses and the argument word still in place |
| NewThreads.ReturnTwice | P6/P6-provided-code/thread.C:95-111 | The two returns take the two words above the frame |
| DiskBlocks.WithData | P6/P6-provided-code/file_system.C:51-58 | Writing data changes those positions and neither header word |
| DiskBlocks.HeaderParts | P6/P6-provided-code/file_system.C:156-158 | The two header words and the data are independent |
| DiskBlocks.HeaderBytes | P6/P6-provided-code/file_system.H:4-30 | The id is the block's first four bytes, low byte first; a block is used when the next four are 0xFFFF; data starts at byte 8 |
| DiskBlocks.Volume.ReadBlock | P6/P6-provided-code/blocking_disk.C:18-22 | The buffer holds the block |
| DiskBlocks.Volume.WriteBlock | P6/P6-provided-code/blocking_disk.C:24-28 | The block holds the buffer, and no other block changes |
| FileContents.File.Read | P6/P6-provided-code/file_system.C:17-38 | Returns min(n, 504 - position), advances by as much, and delivers exactly those bytes |
| FileContents.File.Write | P6/P6-provided-code/file_system.C:40-63 | For n > 0 all or nothing on disk, header and other blocks kept; for n = 0 the old buffer is written, harmless exactly when it is the file's own block |
| FileContents.File.Rewrite | P6/P6-provided-code/file_system.C:70-78 | Erases the data only, and goes back to the beginning |
| FileContents.File.EoF | P6/P6-provided-code/file_system.C:80-85 | True exactly at position 504 |
| FileContents.WriteThenRead | P6/P6-provided-code/file_system.C:17-68 | A write that fits, a reset and a read give back the bytes written at their positions, what preceded them, and the same header and other blocks |
| FileIndex.ScanIsListed | P6/P6-provided-code/file_system.C:100-108 | Mount finds exactly the used blocks below the size, in order, each once |
| FileIndex.MountFinds | P6/P6-provided-code/file_system.C:96-110 | In bytes: mount finds a block exactly when the second word of its header is 0xFFFF, with the first word as id |
| FileIndex.MountRebuilds | P6/P6-provided-code/file_system.C:96-110 | A fresh mount of an agreeing disk finds the files of the index, each once, and agrees again |
| FileIndex.FirstFree | P6/P6-provided-code/file_system.C:193-208 | The intended allocator's choice: the least free block |
| FileIndex.CreateKeeps | P6/P6-provided-code/file_system.C:141-162 | Creating keeps index and headers in agreement, with distinct ids and blocks |
| FileIndex.CreateSucceedsExactly | P6/P6-provided-code/file_system.C:141-162 | Creation succeeds exactly for a new id while there are fewer files than blocks; the file is empty, on the least free block, its header used and with that id, and no other block changes |
| FileIndex.DeleteKeeps | P6/P6-provided-code/file_system.C:164-191 | Deleting (as intended) keeps the agreement |
| FileIndex.DeleteFrees | P6/P6-provided-code/file_system.C:164-191 | Deleting (as intended) takes out that entry alone, the others in their order, and frees and erases its block alone; an unknown id changes nothing |
| FileIndex.DeleteUndoesCreate | P6/P6-provided-code/file_system.C:141-191 | Deleting a file just created restores the index, and the disk but for the freed block |
| FileIndex.DeleteAsCodedAgreesExactly | P6/P6-provided-code/file_system.C:164-191 | As coded, deletion is the intended one for every file but the last of the index, and agrees exactly then; for the last one the entry goes and the disk stays as it was, so that the file comes back at the next mount |
| FileRuns.FormattedAgrees | P6/P6-provided-code/file_system.C:112-128 | A formatted disk agrees with the empty index |
| FileRuns.RunThenMount | P6/P6-provided-code/file_system.C:96-191 | After every run of creations and deletions a fresh mount finds exactly the files of the index |
| FileRuns.FileSurvives | P6/P6-provided-code/file_system.C:141-191 | A file that no step of a run deletes keeps its entry, its block, its header and its data |
| FileRuns.RunRefinesIdSet | P6/P6-provided-code/file_system.C:141-191 | Over every run the index holds the ids that a plain set with room for `size` of them would |
| FileRuns.DeletedAsCodedIds | P6/P6-provided-code/file_system.C:164-191 | As coded too, deletion takes exactly that id out of the index |
| FileRuns.CreateAsCodedDoes | P6/P6-provided-code/file_system.C:141-208 | With the allocator as written, creation writes an empty file of that id over block 0 if it is free, and otherwise over the block after the first free one, and adds its entry; no other block changes |
| FileRuns.CreateAsCodedAgreesExactly | P6/P6-provided-code/file_system.C:193-208 | With the allocator as written, creation keeps the agreement exactly when block 0 or the block after the first free one is free, and the block handed out is within the file system |
| FileRuns.AsCodedRepeatsExactly | P6/P6-provided-code/file_system.C:193-208 | As written, the block handed out is handed out again next time exactly when block 0 was used |
| FileSystems.FileSystem.Format | P6/P6-provided-code/file_system.C:112-128 | The first blocks are blank, the others untouched, the size capped by the disk |
| FileSystems.FileSystem.Mount | P6/P6-provided-code/file_system.C:96-110 | The index is what the scan of the headers finds |
| FileSystems.FileSystem.LookupFile | P6/P6-provided-code/file_system.C:130-139 | Finds the first entry with that id among the first `size`, or reports none |
| FileSystems.FileSystem.AllocateBlock | P6/P6-provided-code/file_system.C:193-208 | Marks the least free block used, -1 when there is none |
| FileSystems.FileSystem.AllocateBlockAsCoded | P6/P6-provided-code/file_system.C:193-208 | The loop as written, block for block, one past the disk included |
| FileSystems.FileSystem.FreeBlock | P6/P6-provided-code/file_system.C:210-214 | Marks that block free, and changes nothing else |
| FileSystems.FileSystem.AddFile | P6/P6-provided-code/file_system.C:216-232 | The copied, longer array is the old list with the file at its end |
| FileSystems.FileSystem.CreateFile | P6/P6-provided-code/file_system.C:141-162 | Index and disk afterwards are the specified ones; true exactly when something was created |
| FileSystems.FileSystem.DeleteFile | P6/P6-provided-code/file_system.C:164-191 | Index and disk afterwards are the intended ones; true exactly when the file was there |
| FileSystems.FileSystem.DeleteFileAsCoded | P6/P6-provided-code/file_system.C:164-191 | The copying loop as written: the last entry is dropped without being freed, and the answer is always false |
| MemoryCopy.CopyMovesExactly | P4/P4-provided-code/utils.C:56-62 | The forward byte copy is a move for all contents exactly when it does not copy up into its own source |
| MemoryCopy.Memcpy | P4/P4-provided-code/utils.C:56-62 | The loop is the forward copy, ranges overlapping or not |
| ConsolePage.PutKeepsValid | P4/P4-provided-code/console.C:128-178 | The cursor stays within the columns and the last 25 rows, and at most one row is begun |
| ConsolePage.OldRowsStay | P4/P4-provided-code/console.C:66-85 | A row that has left the screen is never written again |
| ConsolePage.NextGlyph | P4/P4-provided-code/console.C:128-178 | Where the next glyph appears after each kind of character: start of the next row after a newline, of this one after a return, one column back after a backspace, the next multiple of 8 after a tab, the next column after a glyph, a full row going on in the next |
| ConsolePage.TextFlows | P4/P4-provided-code/console.C:128-186 | Any string of printable characters fills the cells from the cursor on in reading order, and leaves the cells before it |
| ConsolePage.PutCells | P4/P4-provided-code/console.C:66-178 | A character of at least 32 changes the cell at the cursor and no other cell, any other character none; a row begun is blank |
| Console.PutShows | P4/P4-provided-code/console.C:128-178 | Glyph, cursor and scroll on the buffer keep it equal to the last 25 rows of the unbounded page |
| Console.CellsMovedUp | P4/P4-provided-code/console.C:66-85 | Moving bytes up by one row's length moves the cells up by one row |
| Console.TabStop | P4/P4-provided-code/console.C:145-147 | The masked tab arithmetic is the multiple of 8 it is meant to be |
| Console.CursorParts | P4/P4-provided-code/console.C:128-178 | The screen's cursor moves as the page's does, and falls off exactly when the page grows |
| Console.Display.constructor | P4/P4-provided-code/console.C:57-64 | A cleared screen in the given colours, cursor at the top |
| Console.Display.Scroll | P4/P4-provided-code/console.C:66-85 | memcpy and memsetw move every row up and blank the last one |
| Console.Display.Memsetw | P4/P4-provided-code/utils.C:71-76 | Fills exactly the given cells |
| Console.Display.Cls | P4/P4-provided-code/console.C:109-125 | A blank page, cursor at the top |
| Console.Display.Putch | P4/P4-provided-code/console.C:128-178 | Each character takes the buffer from showing the page to showing the page with that character put |
| Console.Display.Puts | P4/P4-provided-code/console.C:181-186 | For every zero-terminated string the buffer shows the page driven by its characters |
| Console.Display.Strlen | P4/P4-provided-code/utils.C:83-90 | The number of characters before the first zero |
| Console.Display.SetTextColor | P4/P4-provided-code/console.C:206-211 | The attribute byte's two halves |
| Bits.OrAligned | P4/P4-provided-code/page_table.C:53 | Or-ing flags into an aligned address is addition |
| Bits.AndPow2 | P4/P4-provided-code/frame_pool.C:89-93 | Testing with a one-bit mask is testing that bit |

## Left out

- MemoryManager.VMPool.Release: asks that each page's release, in turn, finds the page's table present or a free frame without present words to become it. With no frame free the source never returns, and a frame with present words loses the invariant, as WindowFaults.FreePageKeepsExactly says; what further releases then do depends on those stale words.
- MemoryManager.PageTable.HandleFault: takes the fault address and error code as inputs; a not-present error is assumed to be raised only for a page that is not mapped. CR0, CR2, the TLB and privilege levels are not modelled.
- MemoryManager.VMPool.constructor: makes the spare region slots empty, as the legitimacy test needs.
- FrameAllocator.FramePool.constructor: the kernel pool's bitmap must lie in the kernel pool. Pool bases and sizes are the two the kernel uses.
- FrameAllocator.FramePool.MarkInaccessible: asks for a range that ends within 32-bit frame numbers, as any range in memory does.
- FrameRuns.RunsHandOutFreshFrames: clients are assumed never to release the process bitmap's frame; FrameRuns.GiveBackKeepsReserved shows the assumption is needed.
- DirectPaging.HandlersAgree: compares the two handlers on one shared frame pool, where their memories can be equal; the stage P3 handler on its own two pools is DirectRuns.DirectFaultTheorem.
- PageRuns.RunsStayConsistent: leaves out the faults and releases that make a frame with present words a table through its window; by WindowFaults.FaultKeepsExactly no such fault keeps the accounting, and by WindowFaults.FreePageKeepsExactly such a release keeps it only when the one present word is the entry it releases, and that gives away no process frame in use. Releases of pages of the first and last 4 MB, which no pool holds, are left out too.
- MemoryRuns.RunsStayJoined: for a pool outside the first and last 4 MB, as the kernel's two pools are; other pools release only pages outside its range.
- Regions.RunsTile: for a pool that ends below 4 GB; Regions.RunsTileExactly shows that no other pool is tiled throughout.
- The list of registered pools is an array of its own; only the kernel frame reserved for it is in the flat memory. One page table exists at a time.
- LinkedScheduler.Scheduler.constructor: takes the blocked queue's head and counter, and each new node's link, as null and zero, which the source leaves to chance.
- LinkedScheduler.Scheduler.PreemptCurrent: each pair of a queueing call and a yield is one atomic step, and so is Lock's test and set; interrupts between the two calls are not modelled, nor is the freeing of thread memory.
- LinkedScheduler.Scheduler.DropCurrent: asks for unique thread ids, which Thread's counter gives until it wraps.
- Scheduling.ReadyThreadRuns: steps that add new threads are not counted among the steps; a new thread joins behind.
- ContextSwitch.Cpu.SwitchTo: stacks are word-aligned, and the variable current_thread and the thread objects lie off the stack in use. Status flags are not preserved across a switch, and an interrupt inside the switch is not modelled.
- NewThreads.Thread.constructor: asks for an aligned stack with room for the 20 words of the initial frame; priority and cargo fields are omitted.
- FileSystems.FileSystem.AllocateBlock: stops at the file system's size, as Mount does, where the source goes on to the end of the disk; FileRuns.CreateAsCodedAgreesExactly states the effect.
- FileSystems.FileSystem.AllocateBlockAsCoded: when the disk's last block is the only free one, the source transfers the block past the disk; such a transfer is taken to touch no block.
- FileSystems.FileSystem.CreateFile: sets the block number before erasing the block, where the source erases whatever block the new object happens to name; looking up is a pure test, where the source would write through a null pointer if the file exists.
- FileSystems.FileSystem.DeleteFile: files are used one operation at a time; the file-system locks, one of which the source keeps on its early returns, are not modelled.
- The `File` constructor that looks a file up or creates it: a composition of the two operations modelled.
- Console.Display.Putch: the hardware cursor and the copy to the parallel port are omitted; so are puti and putui.
- The descriptor tables, interrupt dispatch, timer and keyboard: table lookups; the timer appears only as the source of Preempt steps.
- Port input and output and disk timing: the disk is an array of blocks, and its readiness a choice of the environment.
- Stages P1, P2 and P5, and the placeholder frame and memory pools of P5 and P6: earlier or deliberately trivial versions.
- The kernel's test functions, number formatting, boot assembly and build files.
