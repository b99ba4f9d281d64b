# newbos: memory management and processes

A model, with proofs, of the memory management of the newbos kernel and of the processes and scheduler built on it. It
follows the code of `kernel/arch/i386/paging.c`, `kernel/kmalloc.c`, `kernel/process.c` and `kernel/scheduler.c`,
including 32-bit wrap-around, every error path, and the cases in which the code does not do what it is for.
`dafny verify dfyconfig.toml` checks the whole project.

The layers, from the bottom up:

- **Page frames** (`MemoryMap`, `FrameScan`, `FrameAllocator`, `FrameRuns`). A bitmap of 32-bit words over a list of
  memory regions. The class `Pfa` works on the words; its contracts speak of the bitmap as booleans and of the set of
  free frames, for any contents of the bitmap.
- **Page tables** (`PageTables`, `AddressSpace`, `MapSteps`, `Window`, `Directories`, `Effects`, `Ledgers`, `MapLoops`,
  `UnmapLoops`, `Placement`, `Paging`, `Runs`, `Coherence`). Two-level tables as in section 4.3 of the Intel 64 and IA-32
  Architectures Software Developer's Manual, Volume 3A. Physical memory is one table of 1024 entries per frame, and the
  tables live in it: the kernel reaches them only through a window, slot 1023 of its own page table, which also shows that
  table itself. The class `Mmu` has the kernel's loops; what they mean is stated with `Walk`, the translation of a page
  through a directory. A ghost ledger says which frame is free, a directory, a table, or data.
- **Heap** (`FreeList`, `HeapModel`, `HeapState`, `Heap`, `HeapLaws`). The circular, address-ordered free list of kmalloc
  and kfree, as memory cells and as a list of blocks, in units of 8 bytes, grown through the two layers below.
- **Processes and scheduler** (`Processes`, `RunQueue`, `Scheduling`, `Spaces`, `Stocks`, `ProcessCreation`). The linked run
  queue refines a queue value on which fairness is proved; process_create goes through all layers, and what it takes from
  them is followed as a stock of frames, kernel pages and kernel tables.
- **Boot** (`BootRegions`, `BootBitmap`, `Boot`). From the boot loader's memory map (section 3.3 of the Multiboot
  Specification 0.6.96) to the first valid state of the allocator and the page tables.

Methods follow the loops and assignments of the kernel; each is proved against a specification on values, and the laws
of those values are lemmas. `Machine` has the 32-bit arithmetic.

## Model

| member | source | states |
|---|---|---|
| MemoryMap.Bijection | kernel/arch/i386/paging.c:640-693 | Over sorted, disjoint, frame-aligned regions, numbering the frames in list order is an order isomorphism: index to frame and frame to index are mutually inverse and strictly monotone both ways. |
| FrameAllocator.Pfa.IdxForPaddr | kernel/arch/i386/paging.c:640-654 | An address inside a region gives the index of its frame, whatever its offset; an address above every region gives the frame count, the "invalid" result. No 32-bit sum wraps. |
| FrameAllocator.Pfa.PaddrForIdx | kernel/arch/i386/paging.c:678-693 | Below the frame count, the address of the frame with that index; otherwise 0. |
| FrameAllocator.Pfa.FitsInOneMmapEntry | kernel/arch/i386/paging.c:656-676 | True exactly when the run of frames lies inside one region. |
| FrameAllocator.Pfa.ToggleBit | kernel/arch/i386/paging.c:624-629 | Exclusive or on one word flips exactly one bit of the bitmap read as a sequence of booleans. |
| FrameAllocator.Pfa.ToggleBits | kernel/arch/i386/paging.c:631-638 | The loop flips exactly the bits of the run. |
| FrameAllocator.Pfa.Scan | kernel/arch/i386/paging.c:695-729 | The word-by-word scan finds a window exactly when there is one that lies in one region, and then the first; the windows are those that cut each maximal run of set bits into pieces of n, counted from the start of the run. Holds for any bitmap contents. |
| FrameAllocator.Pfa.Allocate | kernel/arch/i386/paging.c:695-729 | Fails exactly when no window is accepted, and then changes nothing; otherwise the result names n contiguous frames of one region, all free before and none after, and no other bit changes. |
| FrameAllocator.Pfa.AllocateFrame | kernel/arch/i386/paging.c:695-729 | For one frame: fails only when no frame is free, and otherwise takes the lowest free frame. |
| FrameAllocator.Pfa.Free | kernel/arch/i386/paging.c:613-622 | Toggles the bit of exactly the frame: a frame in use is free again, one that was free no longer is; an address above every region is ignored. |
| FrameScan.EnoughForAWindow | kernel/arch/i386/paging.c:695-729 | 2n - 1 consecutive free frames of one region are always enough for a request of n frames. |
| FrameScan.BoundIsTight | kernel/arch/i386/paging.c:695-729 | For every n from 2 up to the largest that fits below 4 GB there are two regions and a bitmap of whole words in which 2n - 2 consecutive free frames of one region are not enough. |
| FrameScan.SingleFrames | kernel/arch/i386/paging.c:695-729 | For single frames the accepted windows are exactly the free frames, so there is none exactly when no frame is free. |
| FrameScan.FirstChoiceIsLowestFrame | kernel/arch/i386/paging.c:695-729 | The first accepted window of one frame is the lowest free frame. |
| FrameScan.TakeWindow | kernel/arch/i386/paging.c:712-714 | Flipping an accepted window removes exactly a run of contiguous frames of one region from the free frames, whatever the bits beyond the frame count. |
| FrameScan.TakeOne | kernel/arch/i386/paging.c:613-629 | Flipping the bit of a frame that is free takes exactly that frame. |
| FrameScan.GiveBack | kernel/arch/i386/paging.c:613-629 | Flipping the bit of a frame that is not free adds exactly that frame. |
| FrameRuns.FramesConserved | kernel/arch/i386/paging.c:613-729 | Over any run of requests and releases on the bitmap, from any initial bits, live allocations stay pairwise disjoint, and the free frames and the live frames together are always the frames that were free at the start. |
| FrameRuns.LiveIsHeld | kernel/arch/i386/paging.c:613-654 | In every state of such a run a live frame can be released: it lies in a region and its bit is clear. |
| PageTables.EntryRoundTrip | kernel/arch/i386/paging.c:109-120 | Reading back the address of an encoded entry gives the encoded address rounded down to its frame, for page-table and directory entries and all flags. |
| PageTables.EntryFlags | kernel/arch/i386/paging.c:744-835 | The encoders set the present, write-through, writable, user and page-size flags exactly as asked, and no other flag, the global one included. |
| MapSteps.MapKeepsTranslations | kernel/arch/i386/paging.c:289-387 | Mapping never replaces a translation: a page mapped in this or any other directory keeps its frame and flags. |
| Paging.Mmu.PtMapMemory | kernel/arch/i386/paging.c:289-318 | Fills slots of the table behind the window up to the first present slot, the window's own slot, or the end of the range or table, and reports how many. |
| Paging.Mmu.MapOneTable | kernel/arch/i386/paging.c:336-384 | One iteration, on every exit path: a run of one table is mapped; a missing table comes from the free frames and is linked with the flags of the request; a table leaks exactly if its entry is absent, a frame is free and the page is the window's; nothing else changes in any directory, and the window's slot is as before. |
| Paging.Mmu.PdtMapMemory | kernel/arch/i386/paging.c:320-387 | The result is 0 or the rounded size. It is not 0 exactly when every page was clear and there is a free frame for each missing table; then page k of the range translates to frame k with the requested flags in every directory that shares the table, and exactly the missing tables left the free frames. On failure a prefix is mapped, and why the loop stopped is stated. No translation is ever replaced, across any number of directory entries. |
| Paging.Mmu.PtUnmapMemory | kernel/arch/i386/paging.c:401-430 | Clears exactly the slots up to the end of the size or table, or to the window's own slot. |
| Paging.Mmu.PdtUnmapMemory | kernel/arch/i386/paging.c:172-216 | Unmaps exactly the range, in one directory entry; a whole table outside the kernel's own entry is unlinked and exactly its frame becomes free, whoever else uses it, and the state is in order afterwards if and only if no other directory does. A range whose end wraps, or under an absent entry, changes nothing. |
| Paging.Mmu.UnmapNext | kernel/arch/i386/paging.c:183-213 | One iteration for a range of any size goes on exactly at the address the lemmas below reason with, and unmaps exactly the part of the range in its table. |
| MapSteps.UnmapStandsStill | kernel/arch/i386/paging.c:183-213 | The unmapping loop does not move, for ever, exactly on an absent entry at a 4 MB boundary and on the window's page. |
| MapSteps.UnmapOneIteration | kernel/arch/i386/paging.c:183-213 | For a range inside one entry, exactly when one iteration ends the loop. |
| MapSteps.UnmapExact | kernel/arch/i386/paging.c:183-213 | For every range under present entries, neither the kernel's own nor the last: the loop ends exactly at the end of the range if and only if the range lies in one entry or ends at a 4 MB boundary; otherwise it goes too far. |
| MapSteps.UnmapOverrun | kernel/arch/i386/paging.c:198-212 | One such range of two pages, unmapped one page too far. |
| Directories.MapUnmapRoundTrip | kernel/arch/i386/paging.c:172-387 | Mapping a clear range inside one directory entry and unmapping it restores every translation of every directory. |
| Window.WindowOpens | kernel/arch/i386/paging.c:122-130 | What the kernel sees at the window's address after opening it on a frame is that frame, also when the frame is the kernel's page table itself. |
| Paging.Mmu.PtKernelFindNextVaddr | kernel/arch/i386/paging.c:224-248 | The lowest run of usable slots of the table, or 0 exactly when it has none. |
| Paging.Mmu.PdtKernelFindNextVaddr | kernel/arch/i386/paging.c:250-287 | 0 only when no kernel entry can hold the size; otherwise the lowest place in the first entry that can. Memory, and with it the window's slot, is as before. |
| MapSteps.FoundIsClear | kernel/arch/i386/paging.c:224-287 | A place found for at most 4 MB is entirely unmapped, avoids the window, lies in one entry and does not wrap. |
| Paging.Mmu.FindAndMap | kernel/arch/i386/paging.c:250-399 | For at most 4 MB, searching and then mapping succeeds in full exactly when the entry found is present or a frame is free for its table; otherwise nothing changes. |
| Placement.PlacedExactly | kernel/arch/i386/paging.c:250-399 | Placing one page for the kernel succeeds if and only if it has a free page and, if that page needs a table, a free frame. |
| Paging.Mmu.PdtCreate | kernel/arch/i386/paging.c:146-170 | Defined exactly when the kernel has a page for the directory and, if that needs a table, a frame is free; then there is a new empty directory, in the lowest free frame and mapped at the page the search settles on, with exactly the frames taken that it needs; or, with a single frame and a page that needs it as a table, the frame is given back; without any frame, frame 0 stands in. |
| Paging.Mmu.PdtLoadProcessPdt | kernel/arch/i386/paging.c:432-448 | The loop copies the kernel's entry 0 and every present entry of the kernel's part, and nothing else; what this means for every page is the next row. |
| Directories.LoadCoherence | kernel/arch/i386/paging.c:432-448 | After loading, entry 0 and each entry from 768 on that is present in the kernel's directory are the kernel's, and the others are as before; so pages 0 to 1023 translate as the kernel's, pages in entries 1 to 767 as before, and those above as the kernel's where it has an entry and otherwise as before. No other directory changes. |
| Directories.FirstEntryReplaced | kernel/arch/i386/paging.c:439-440 | Whatever page 0 of a directory translated to, after loading it translates as in the kernel's directory. |
| Coherence.AgreementAfterMap | kernel/arch/i386/paging.c:320-399 | After the kernel maps pages for itself, a loaded process still agrees with it if and only if no entry had to be added to the kernel's part; then it translates that whole part as the kernel does. |
| Coherence.AgreementAfterUnmap | kernel/arch/i386/paging.c:172-222 | After the kernel unmaps pages, a loaded process still agrees with it on what is left; but if it unmaps a whole table of its part that is there, the process is left with an entry for a frame that is free, and the state is not in order. |
| Coherence.StaleTable | kernel/arch/i386/paging.c:203-210 | Freeing a whole table above the kernel's own while a process agrees always leaves that process with a directory entry for a free frame. |
| Effects.FreeKeeps | kernel/arch/i386/paging.c:203-210 | Clearing a whole table, its entry, and freeing its frame keeps frames and address spaces in order if and only if no other directory uses the table. |
| Coherence.AgreementOverRuns | kernel/arch/i386/paging.c:172-448 | Over any run of kernel maps and unmaps after a process was loaded, every state is in order with the process agreeing if and only if no call adds an entry to the kernel's part and none frees a table a process uses; then the process translates that part as the kernel does. |
| Effects.EffectKeeps | kernel/arch/i386/paging.c:146-448 | Each elementary effect of the paging code - filling or clearing slots, linking or freeing a table, making or loading a directory, taking or giving a frame, writing a data frame - keeps every frame in at most one role, directories and tables well formed, sharing only by copied kernel entries, the set of frames in use, and the window's slot, if and only if it does not free a table that another directory uses. The effects say what changes, not that anything is kept. |
| Runs.OwnershipOverRuns | kernel/arch/i386/paging.c:146-729 | Over any run of mapping, unmapping, loading, and growth by kmalloc, pdt_create or process_create, with the outcomes these promise: every state is in order - each frame at most one of free, directory, table or data, tables shared only by the kernel's entries - if and only if no call frees a table that another directory uses; and then no frame comes into use that was not. |
| Runs.OperationReaches | kernel/arch/i386/paging.c:146-448 | Each such call is a sequence of effects on the directories it works on alone: the one it is given, or, for growth, the kernel's and that of the process being created. |
| Runs.Isolation | kernel/arch/i386/paging.c:146-448 | Over any run of such calls of which none works on directory d, every translation of d in entries 1 to 767 stays as it was. |
| Heap.PayloadFits | kernel/kmalloc.c:70 | The block requested holds the payload exactly when rounding its size does not wrap, that is up to 0xFFFFFFF8 bytes. |
| Heap.UnitsTight | kernel/kmalloc.c:70 | Short of that wrap the units asked for are the fewest that hold the payload and one header. |
| Heap.Allocator.FindGap | kernel/kmalloc.c:183-192 | From any position of the list the search ends, within one lap, at the one gap where the block belongs. |
| FreeList.GapUnique | kernel/kmalloc.c:183-192 | An address-ordered circular list has exactly one gap for a block. |
| HeapModel.FreeLinks | kernel/kmalloc.c:194-217 | Writing the two headers at that gap links the list with the block inserted and joined to its neighbours. |
| HeapModel.TakeLinks | kernel/kmalloc.c:75-101 | Cutting a block off the tail, or unlinking one that fits exactly, links the list without it. |
| FreeList.CanonicalUnique | kernel/kmalloc.c:183-217 | Two lists in address order without adjacent blocks that cover the same units are the same list. |
| FreeList.InsertCanonical | kernel/kmalloc.c:194-217 | Inserting at the gap and joining keeps the list canonical and adds exactly the block's units. |
| FreeList.TakeCanonical | kernel/kmalloc.c:75-101 | Taking units from the tail of a block keeps the list canonical. |
| Heap.Allocator.Kfree | kernel/kmalloc.c:169-224 | The block's units, and no others, become free again, the list is the canonical list of the free units, and no cell outside the list and base is written; the next search starts at the block before the gap where it went. Address 0 is ignored. |
| Heap.Allocator.AcquireMoreHeap | kernel/kmalloc.c:119-167 | Grows by whole pages, exactly when there is a window of frames, a clear place for them, and a frame for each missing table. The new block is the units of consecutive pages that were unmapped, at the place the search settles on; behind them, in order and writable by the kernel only, are consecutive frames that were free and now are data; no frames go but these and one for each missing table. A refused growth leaves the list and the totals. |
| Heap.PagesTight | kernel/kmalloc.c:124-133 | Growth asks for at least two pages, and beyond two for the fewest that hold the units, also where the size wraps. |
| Heap.Allocator.Kmalloc | kernel/kmalloc.c:49-117 | Terminates. Returns 0 exactly when nothing is asked for, or no block is large enough and the heap cannot grow; grows at most once, and only when no block is large enough, as in the row above. Without growth it takes the tail of the first block after freep, going round, that is large enough, and after a growth that of the one block that is; the next search then starts at the block before it. The block is disjoint from all live and free blocks, no live block and no cell outside the free units changes, and the payload fits exactly when the size arithmetic does not wrap. |
| Heap.SmallRequests | kernel/kmalloc.c:119-159 | Requests of up to 1024 pages never reach the one case that is excluded, a growth past 4 GB. |
| HeapLaws.AllocateFreeRoundTrip | kernel/kmalloc.c:85-223 | Freeing what an allocation without growth returned restores the free list, the live blocks and the units acquired. |
| HeapLaws.FreeOrderIrrelevant | kernel/kmalloc.c:169-224 | Freeing the same blocks in any two orders ends in the same list. |
| HeapLaws.FreedIsInsert | kernel/kmalloc.c:169-224 | One call of kfree is one step of that sequence. |
| HeapLaws.Conservation | kernel/kmalloc.c:49-224 | Free units and live units always add up to the units acquired. |
| HeapLaws.ListIsMaximalRuns | kernel/kmalloc.c:49-224 | In every heap state the list is exactly the maximal runs of free units. |
| RunQueue.Fairness | kernel/scheduler.c:73-112 | Over any interleaving of adds and schedules, the process at position j is what the j-th schedule dispatches if and only if no entry up to it is empty. |
| RunQueue.Stalls | kernel/scheduler.c:97-102 | An empty entry that comes to the head stops every later schedule, whatever is added. |
| RunQueue.FullRound | kernel/scheduler.c:84-95 | As many schedules as there are processes dispatch each once and restore the order. |
| RunQueue.NextPidFresh | kernel/scheduler.c:26-42 | The next identifier is new except when it wraps to a 0 that is in use. |
| RunQueue.PidsDistinct | kernel/scheduler.c:26-42 | From an empty queue, over any interleaving of creations, adds and schedules, all identifiers are distinct if and only if each process is added before the next is created and there are at most 2^32. |
| Scheduling.EventsOfQueue | kernel/scheduler.c:26-95 | The scheduler's own operations on its queue are the events of the previous row. |
| Scheduling.Scheduler.NextPid | kernel/scheduler.c:26-42 | The walk over the list computes one more, modulo 2^32, than the largest identifier in the queue. |
| Scheduling.Scheduler.AddProcess | kernel/scheduler.c:44-71 | Fails exactly when the heap refuses the list element of two units, never when a free block has two; then neither queue nor heap list changes. Otherwise the process is appended to the linked list, which stays acyclic with a correct tail, with one new heap block. |
| Scheduling.Scheduler.Schedule | kernel/scheduler.c:73-112 | Turns the list and dispatches as the queue value says; the dispatched process's kernel stack, with segment 0x10, loaded directory and processor directory are set, the kernel's translations and the heap are undisturbed, and without a process nothing but the turn happens. |
| Scheduling.Scheduler.Load | kernel/scheduler.c:104-111 | Loads the directory, after which the process agrees with the kernel; a process in kernel mode, with code segment 0x08, is not entered. |
| ProcessCreation.CreatePdt | kernel/process.c:97-109 | A directory of its own, empty and loadable, exactly if a frame for it, a kernel page, and a frame for the table that page may need can be had; astray exactly when pdt_create is not defined. |
| ProcessCreation.LoadCode | kernel/process.c:114-144 | One frame at virtual address 0 of the process; that no frame or mapping could be had for the process goes unnoticed, and then no frame is left. Astray if and only if the code cannot be mapped for the kernel, or the heap then refuses the list element. |
| ProcessCreation.MapAndUnmap | kernel/process.c:120-124 | Mapping the code for the kernel and unmapping it goes astray if and only if the kernel has no free page, or that page needs a table and no frame is free. |
| ProcessCreation.MapThenUnmap | kernel/process.c:120-124 | Mapping the code's frame for the kernel and unmapping it leaves every translation as it was, unless the page is the last of the address space, which stays mapped. |
| ProcessCreation.LoadStack | kernel/process.c:149-188 | One frame below the kernel's part, described by one list element; with a heap block for that element, exactly if two frames are free. On failure nothing that was mapped is lost. |
| ProcessCreation.LoadKernelStack | kernel/process.c:193-238 | One frame at a kernel page that was unmapped, described by one list element; with a heap block for that element, exactly if there is such a page and frames for it and the table it may need. The stack starts at its last word. |
| ProcessCreation.ProcessCreate | kernel/process.c:58-242 | A created process has its directory, code, stack and kernel stack in four different frames that were free; its space translates exactly the code and stack pages, and its directory has no other entries; its kernel stack is mapped for the kernel; it starts with code segment 0x1B, stack segment 0x23, flags 0x202, eip 0, esp 0xBFFFFFFC and all other registers 0; its list elements and four heap blocks are as specified, every earlier live block is still there, and no other directory and no kernel mapping has changed. With 29 free units in one block there is a process if and only if the two lowest free kernel pages are there, the second is not the last page of the address space, and six frames are free besides those for the tables these pages miss; if the heap refuses the structure, creation goes astray. |
| Stocks.SuppliedExactly | kernel/process.c:97-238 | Once the directory and the code are there, the stacks can be had if and only if the frames and kernel pages sufficed at the start. |
| Stocks.EnoughForAProcess | kernel/process.c:97-238 | Eight free frames and three free kernel pages always suffice. |
| Stocks.FoundIsNext | kernel/arch/i386/paging.c:250-287 | The search for one page settles on the lowest kernel page that is unmapped and not the window. |
| Stocks.CanPlaceHere | kernel/arch/i386/paging.c:250-399 | The kernel can map one page of its own choice if and only if the lowest free one has a table or a frame is free for one. |
| BootRegions.FillMemoryMap | kernel/arch/i386/paging.c:450-499 | The loop keeps exactly the ranges above 1 MB, in order, truncated to words and cut for the kernel. |
| BootRegions.AlignRegions | kernel/arch/i386/paging.c:599-608 | The alignment loop, on every region. |
| BootRegions.AlignInside | kernel/arch/i386/paging.c:603-604 | Alignment stays inside the region if and only if the region is as long as what rounding cuts off; otherwise its length wraps to nearly 4 GB. |
| BootRegions.KernelCut | kernel/arch/i386/paging.c:478-485 | What is kept of the range that holds the kernel stays inside it if and only if the range is as long as the kernel's end address. |
| BootRegions.RegionsSafe | kernel/arch/i386/paging.c:469-608 | From a memory map the kernel can be started from, the regions are regular, and each of their frames is available memory that meets no byte of the kernel image. |
| BootRegions.RegionsExact | kernel/arch/i386/paging.c:469-608 | From such a memory map, the frames the regions hold are exactly the whole frames of the available ranges above 1 MB, and of the range that holds the kernel those from the kernel's end up to the range's own length. |
| BootBitmap.ReservedOut | kernel/arch/i386/paging.c:517-527 | Cutting the bitmap off its region removes exactly its frames and leaves a regular map with that many frames less. |
| BootBitmap.BitmapFramesTight | kernel/arch/i386/paging.c:515 | The bitmap is given the fewest frames that hold one bit for each frame. |
| BootBitmap.WordsInside | kernel/arch/i386/paging.c:529-566 | Every word the scan reads lies in the pages mapped for the bitmap, and those in the reserved frames. |
| BootBitmap.FillBitmap | kernel/arch/i386/paging.c:560-566 | The value of every bit: set in all bytes before the last, set in the last byte for as many frames as are left over from whole bytes, and behind it what the memory held. |
| BootBitmap.AllStartFree | kernel/arch/i386/paging.c:560-566 | Every frame starts free if and only if the last byte is the first or second of its word and the memory held ones for the frames of that word. |
| Boot.ConstructBitmap | kernel/arch/i386/paging.c:501-570 | There is no bitmap exactly when no region is long enough or no kernel addresses are free for it. The first region that is long enough loses the bitmap's frames in either case; when there is a bitmap, those frames are mapped for the kernel at the place the search settles on, with the flags the kernel really passes, every other translation is as before, and the allocator is valid. |
| Boot.FramesInit | kernel/arch/i386/paging.c:571-611 | There is an allocator exactly when a region and kernel addresses can be had for the bitmap, and the memory map holds the aligned regions without the bitmap's frames. Every frame the allocator can ever hand out is available memory outside the kernel image and outside the bitmap, and the frame count is that of the final regions. |

## Findings

What the kernel does not do, with the exact condition where there is one.

- **Unmapping can stand still for ever** (`MapSteps.UnmapStandsStill`): exactly on an absent directory entry at a 4 MB
  boundary, because rounding the address up does not move it, and on the window's own page.
- **Unmapping can go too far** (`MapSteps.UnmapOverrun`): the size is never reduced, so a range that goes on into a second
  present entry is unmapped there for its full size again. `MapSteps.UnmapExact` says which
  ranges over present entries are unmapped exactly: those in one entry and those that end at a 4 MB boundary.
- **Unmapping frees tables that are still used** (`Effects.FreeKeeps`, `Coherence.StaleTable`): a table cleared as a whole
  is freed without asking who else uses it. When the kernel unmaps 4 MB of its part above its own table, every process that
  was loaded with that entry keeps it, and its frame can be handed out again. Frames and address spaces stay in order
  exactly if no other directory uses the table; over runs this is the only way to lose order (`Runs.OwnershipOverRuns`).
- **A range that ends at 4 GB is not unmapped** (`UnmapLoops.RangeEnd`, `ProcessCreation.MapThenUnmap`): its end wraps to 0.
- **Short regions grow** (`BootRegions.AlignInside`): a region shorter than what rounding its start cuts off gets a length
  of nearly 4 GB.
- **The kernel's end address is subtracted from a length** (`BootRegions.KernelCut`): right only when the range that holds
  the kernel is as long as that address; it is also too short by the range's start.
- **pdt_create without resources** (`Paging.Mmu.PdtCreate`, `Placement.CanPlacePage`): without a kernel page it maps at
  address 0, and without a frame for the page's table and for the directory it frees frame 0. Without a frame for the
  directory alone, frame 0 is mapped and cleared.
- **process_create goes astray** (`ProcessCreation.ProcessCreate`): a null result of kmalloc is used for the process and
  for the code's list element, and the results of mapping the code for the kernel are ignored, so that a failed mapping is
  unmapped, at address 0 or for ever: exactly when the kernel has no free page, or no frame for that page's table
  (`ProcessCreation.MapAndUnmap`, `ProcessCreation.LoadCode`).
- **The code page is not there after loading** (`Directories.FirstEntryReplaced`): loading a process replaces its entry 0, with
  the code at virtual address 0, by the kernel's.
- **Loaded processes fall behind** (`Coherence.AgreementAfterMap`): when the kernel adds a directory entry to its part, no
  process has it until it is loaded again.
- **The bitmap is mapped with swapped flags** (`Boot.BitmapPages`): write permission and privilege level are passed in the
  wrong order, so the bitmap is mapped read-only and open to user mode.
- **A missing bitmap goes unnoticed** (`Boot.FramesInit`): the result of construct_bitmap is ignored, and the frames of a bitmap
  that could not be mapped are lost (`Boot.WithoutBitmap`).
- **Frames are withheld at first** (`BootBitmap.AllStartFree`): bits are numbered from the top of a word but written byte by
  byte from its low end, and of a whole last byte no bit is set; so in general some of the last frames cannot be allocated.
- **Requests near 4 GB wrap** (`Heap.PayloadFits`): above 0xFFFFFFF8 bytes kmalloc returns a block that is too small.
- **Identifiers clash** (`RunQueue.PidsDistinct`): exactly when a process is created before the previous one is added, or
  after 2^32 creations.
- **An empty queue entry stops the scheduler** (`RunQueue.Stalls`): a null process is accepted by scheduler_add_process, and
  once it is at the head nothing is ever dispatched again.
- **Frames leak** (`Ledgers.FrameLeaked`, `Heap.Allocator.MapRegion`): a table allocated for an entry in which nothing could
  be mapped, and the frames of a refused heap growth, stay taken.
- **The presence test looks at the whole flag byte** (`PageTables.Present`): it is a logical and of the byte with 1, so an
  entry counts as present when any flag is set. Well-formed directories and tables have no entry on which this differs.
- **Large places** (`MapSteps.EntryFits`): the search treats every absent kernel entry as room for any size, so
  for more than 4 MB it can settle on a place whose later entries are taken; the mapping then fails half-way.

## Left out

Weaker than the code's whole behaviour:

- Paging.Mmu.PdtMapMemory: not stated for ranges that meet a 4 MB page (`NoLarge`), whose entry the loop would read as a page table.
- Paging.Mmu.PdtUnmapMemory: stated for the calls that return having unmapped exactly their range (`UnmapReturns`); the other ones stand still or are covered by the exact condition on where the loop ends.
- Paging.Mmu.FindAndMap: for at most 4 MB, as the search itself is meant for; larger growth of the heap goes through the search and the mapping separately.
- Heap.Allocator.Kmalloc: not stated when the heap would have to grow at a place that reaches past 4 GB, where the mapping wraps onto the large page of entry 0 (`Servable`).
- FrameAllocator.Pfa.Free: an address in a gap between regions, or below them, is not covered.
- FrameAllocator.Pfa.IdxForPaddr: an address in a gap between regions, or below them, is not covered; the subtraction wraps there.
- Paging.Mmu.PdtCreate: nothing is stated of what is left when it is not defined.
- ProcessCreation.ProcessCreate: when the heap has to grow on the way, or takes the blocks from different places, what suffices is not stated; after going astray nothing is stated.
- ProcessCreation.LoadCode: the file is a placeholder of 42 bytes and the path is ignored, as in the kernel.
- Boot.FramesInit: for memory maps that are sorted and disjoint with a kernel range as long as the kernel's end address (`Bootable`), with at most 100 ranges kept, with other than exactly one frame in all, and where the place for the bitmap is in a present kernel entry (`KernelTables`): without it a table would be allocated from the bitmap that is not there yet.
- MemoryMap.Bijection: no region ends exactly at 4 GB, where its end wraps to 0.

Not part of the model:

- Effects on the hardware: the processor's directory register, invalidating translations, entering user mode, interrupts, segment tables and ports.
- Messages on the screen, `kernel/printk.c`, `kernel/arch/i386/tty.c`, and `kernel/arch/i386/task.c`, which is not built.
- Access rights beyond the entries' own flags: a directory entry keeps the flags of its first mapping, and `Walk` reports those of the page.
- The kernel's own accesses through its directory: tables are reached through the window as modelled, but the heap's cells and the bitmap are kept apart from physical memory, and directories are named by their frame.
- memset, which is a single assignment, except for the bitmap; within one iteration the window shows the table directly.
- The address of kmalloc's static base, which is rounded to a unit and kept as a parameter.
- The stride of the boot loader's entries, which come as a sequence.
- Filling in a process step by step: its fields are a value until the process is complete, since nothing else can reach it before.
