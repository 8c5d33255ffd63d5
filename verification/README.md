# mexOS kernel: verified model

mexOS is a small i686 kernel written in C. This project models its stateful cores in Dafny and proves
what they keep over whole runs:

- **Kernel heap** (`HeapBlocks`, `HeapRuns`, `KernelHeap`, `HeapCalls`). Block headers live in a word-addressed memory
  and are rewritten in place by split and merge; every operation is proved against functions on the list
  of blocks. In every run the list tiles the heap, no two neighbours are free, live payloads never
  overlap, a live block keeps every word until it is freed, and allocation is best fit and fails exactly
  when no gap between live blocks is large enough.
- **Frames and address spaces** (`FrameAllocator`, `PageTables`, `AddressSpaces`, `CloneSpaces`). The
  bitmap allocator refines a set of used frames; the two-level tables (32-bit paging, section 4.3 of the
  Intel SDM Volume 3A) refine a flat map from pages to entries; every directory, table and user page
  frame has one owner. Create, any run of page allocations and frees, destroy: bitmap and counter are
  restored exactly. Allocation, creation and clone fail exactly when the free frames do not suffice; clone copies
  every user page to a fresh frame or accounts for every frame it lost.
- **Scheduler and message ports** (`MessageRing`, `KernelSteps`, `KernelInvariants`, `KernelRuns`, `KernelLaws`,
  `TaskList`, `PortTable`). One step machine: each step runs from a kernel entry to the next context switch, and
  each task carries the loop it is in (send, receive, wait or none). In every interleaving no wake-up is
  lost, messages are first in first out, a child is reaped once with its exit code, and a zombie stays one.
  For every entry a law that names none of the step functions gives each result code and the whole new state.
  The linked task structs, the port table and its queue arrays in memory follow every such run.
- **Disk file system** (`DiskFormat`, `FileBlocks`, `FileIo`, `Directories`, `DiskRuns`, `DiskAccount`,
  `DiskFiles`). Inodes as bytes in shared sectors, an inode cache, bitmaps with counters, twelve direct
  blocks per file, directories stored as files. Every run of writes, creations and deletions refines one byte array per file and one
  finite map per directory, and the free-block counter is always what the file sizes leave.
- **RAM file system** (`RamPaths`, `RamTree`, `RamRoutes`, `RamFs`). The node table stays a tree with unique sibling
  names; a path resolves exactly to the node its route through that tree ends at; the printed current
  directory resolves back to it exactly when it is at most eight levels deep.

Code that changes state in the source is a class or a method with loops here, proved against functions
and predicates on values; the whole-run theorems are lemmas about those.

## Where the code falls short of a property

Each of these has a lemma with the failing case and the exact condition under which the code is right.

- A `kmalloc` size above 2^32 - 4 rounds to 0 and is granted a few bytes (`HeapRuns.HugeRequestGranted`); a granted
  request gets its size exactly up to 2^32 - 4 (`HeapRuns.GrantSufficesExactly`).
- `heap_used` is decreased by the size of the block but increased by the size of the request, so it drifts below the
  real usage (`HeapRuns.UsedCounterWraps`); it is right exactly when the total slack is 0 modulo 2^32 (`HeapRuns.UsedIsExact`).
- `kmalloc_aligned` computes size + align + 8 in 32 bits; the range it returns is inside its block exactly
  when that sum is at most 2^32 - 4 (`KernelHeap.AlignedRangeExactly`, failing at `KernelHeap.AlignedRequestOverruns`).
- `pmm_init_region` and `pmm_deinit_region` cast base and size to int; the loop visits exactly the region when both are
  below 2^31 or the region holds no whole frame (`FrameAllocator.TouchedIsRegionExactly`). `pmm_free_block` keeps the
  counter exact only for a frame in use (`FrameAllocator.Pmm.FreeBlock`).
- `vmm_check_user_ptr` accepts a range that wraps past 2^32 to an earlier page although it is not accessible
  (`AddressSpaces.CheckOnWrappedRange`); `AddressSpaces.CheckRightExactly` says for every range when the answer is right.
- `vmm_alloc_page` on a page that is already mapped succeeds and loses the old frame, which stays marked used and belongs
  to nobody; it loses one exactly when the page was mapped and the call succeeds (`AddressSpaces.Vmm.AllocPage`).
- A port has one waiter slot per side: a task that parks where another is parked strands it
  (`KernelRuns.SecondReceiverStrandsFirst`, `KernelRuns.SecondSenderStrandsFirst`), and a pass is safe exactly when it does
  not (`KernelRuns.ReceiveKeepsExactly`, `KernelRuns.SendKeepsExactly`). `task_exit` with nobody READY leaves a zombie
  running, and its next blocking call revives it (`KernelRuns.LonelyExitRevives`, `KernelRuns.ExitKeepsExactly`). All the
  rules for callers together are exact (`KernelRuns.StepKeepsExactly`).
- The packed inode struct adds up to 136 bytes (kernel/fs/diskfs.h:56-65) although slots are 128 bytes apart
  and the comment says 128: inode 0 then overwrites inode 1 and inode 3 runs past its sector
  (`DiskFormat.SlotsOverlap`). The inode size is a parameter here, and everything else is proved for sizes up to 128.
- `diskfs_format` leaves block bit 0 clear although block number 0 means "no block": the first write after it reports its
  bytes and reads back empty (`FileIo.FirstWriteIsLost`); a chunk in a new block is read back exactly when block 0 was
  marked used (`FileIo.BlockZeroIsLost`). The invariant has block 0 marked (`DiskFiles.DiskFs.ReserveBlockZero`).
- `diskfs_read` adds offset and size in 32 bits; when the sum wraps into the file the answer runs on to the end
  of the last block, and is right exactly when the file fills that block (`FileIo.ReadIsSliceExactly`).
- `diskfs_create` reports success even if the directory had no room for the entry; the name is bound exactly
  when there was room (`DiskFiles.DiskFs.Create`).
- `fs_remove` can remove the current directory; the invariant survives exactly when it does not
  (`RamFs.RamFs.Remove`, `RamFs.DotIsCurrent`).
- `fs_change_dir` prints into a 128-byte buffer without a bound: it stays inside exactly when the printed path has at most
  127 characters (`RamFs.RamFs.ChangeDir`), and four nested names of 31 characters overrun it (`RamFs.NestedOverruns`).
- A non-blocking receive on an empty queue returns -2 (kernel/ipc/ipc.c:118), although tests/ipc/test_ipc.c:83
  expects -1. The model follows the code.

## Model

| member | source | states |
|---|---|---|
| HeapBlocks.Ordered | kernel/mm/heap.c:6-11 | In a list that tiles the heap an earlier block ends before a later one begins. |
| HeapBlocks.Covered | kernel/mm/heap.c:6-11 | Every address of the heap lies in some block of a tiling list. |
| HeapBlocks.LayoutDetermined | kernel/mm/heap.c:45-78 | Two tiling lists of positive blocks without adjacent free blocks and with the same live blocks are equal. |
| HeapBlocks.CoalesceKeeps | kernel/mm/heap.c:45-78 | Merging keeps tiling and live blocks and leaves no two adjacent free blocks. |
| HeapBlocks.CoalesceFixed | kernel/mm/heap.c:45-78 | A list without adjacent free blocks is a fixed point of merging. |
| HeapBlocks.BestFitIsBest | kernel/mm/heap.c:80-104 | The search returns a smallest sufficient free block, and nothing exactly when none suffices. |
| HeapBlocks.ExactFitIsFinal | kernel/mm/heap.c:95-98 | Stopping early at an exact fit gives the block the whole scan would give. |
| HeapBlocks.PlaceKeeps | kernel/mm/heap.c:32-43 | Splitting and marking keeps tiling and no adjacent free blocks, and adds one live block. |
| HeapBlocks.ReleaseKeeps | kernel/mm/heap.c:216-221 | Releasing a block keeps tiling and removes exactly that live block. |
| HeapBlocks.FreeUndoesPlace | kernel/mm/heap.c:32-78 | Releasing and merging after a placement gives back the list before it. |
| HeapBlocks.FitsIffVacant | kernel/mm/heap.c:80-104 | A free block fits n bytes exactly when some header-and-payload range of that size meets no live block. |
| HeapRuns.MallocKeeps | kernel/mm/heap.c:106-135 | kmalloc keeps the heap invariant; a refusal changes nothing, so the merge-and-retry path never changes the outcome. |
| HeapRuns.MallocFailsExactly | kernel/mm/heap.c:106-135 | kmalloc returns NULL exactly for size 0 or when no gap between live blocks holds the rounded size. |
| HeapRuns.MallocAddsOne | kernel/mm/heap.c:106-135 | A granted request adds one live block, at the first smallest sufficient free block and 12 bytes below the pointer; it is split if and only if it has 28 bytes to spare, and the slack grows by less than 28. |
| HeapRuns.MallocPositive | kernel/mm/heap.c:112 | Sizes from 1 to 2^32 - 4 never produce a block of size 0. |
| HeapRuns.GrantSufficesExactly | kernel/mm/heap.c:112-131 | A granted request gets as many bytes as it asked for if and only if it asked for at most 2^32 - 4. |
| HeapRuns.HugeRequestGranted | kernel/mm/heap.c:112 | Every size above 2^32 - 4 is granted, whenever any block is free, with fewer than 28 bytes. |
| HeapRuns.FreeKeeps | kernel/mm/heap.c:184-223 | kfree keeps the invariant, removes exactly one live block, and leaves nothing for heap_validate to repair. |
| HeapRuns.FreeExactly | kernel/mm/heap.c:184-223 | kfree of the pointer of a live block takes exactly that block away and its size and header off the counter; any other pointer changes nothing. |
| HeapRuns.FreeUndoesMalloc | kernel/mm/heap.c:106-223 | Freeing what was just allocated restores the block list. |
| HeapRuns.PayloadsDisjoint | kernel/mm/heap.c:32-135 | Two blocks, headers included, never overlap and lie inside the heap. |
| HeapRuns.MergeGuardNeverFires | kernel/mm/heap.c:61-68 | The overflow guard of the merge loop is never true on a tiling list. |
| HeapRuns.StepKeeps | kernel/mm/heap.c:106-286 | Each operation on the block list keeps the invariant and bounds the slack it adds. |
| HeapRuns.RunKeeps | kernel/mm/heap.c:106-286 | Every run on the block list keeps tiling, no adjacent free blocks, positive sizes, the counter equation and the bound of 27 bytes of slack for each allocation. |
| HeapCalls.Perform | kernel/mm/heap.c:106-286 | Any allowed call of kmalloc, kmalloc_aligned, kfree, heap_defragment or a store by a block's owner makes exactly its step on the list and on the aligned pointers, and keeps every live block it does not free, word for word. |
| HeapCalls.RunKeepsHeap | kernel/mm/heap.c:106-286 | Over every run of such calls the block list keeps its invariant, and no block is empty unless a size wrapped. |
| HeapCalls.LiveUntilFreed | kernel/mm/heap.c:106-286 | Over every run of such calls a live block that is not freed stays, and each of its words holds what was last stored there. |
| HeapRuns.UsedIsExact | kernel/mm/heap.c:112-131 | heap_used equals header plus live bytes exactly when the total slack is 0 modulo 2^32. |
| HeapRuns.UsedCounterWraps | kernel/mm/heap.c:218 | One allocation and one free can wrap heap_used below zero. |
| KernelHeap.Heap.constructor | kernel/mm/heap.c:20-30 | One free block covers the heap. |
| KernelHeap.Heap.SplitBlock | kernel/mm/heap.c:32-43 | In memory: the block is cut in two when the rest is worth it, nothing outside it changes. |
| KernelHeap.Heap.MergeFreeBlocks | kernel/mm/heap.c:45-78 | In memory: the headers become those of the coalesced list, live payloads keep every word. |
| KernelHeap.Heap.FindBestFit | kernel/mm/heap.c:80-104 | Walking the headers finds the address of the best-fit block. |
| KernelHeap.Heap.Kmalloc | kernel/mm/heap.c:106-135 | In memory: the list and the pointer are those of the list-level kmalloc, live blocks keep every word. |
| KernelHeap.Heap.KmallocAligned | kernel/mm/heap.c:137-160 | The pointer is the first aligned one that leaves 8 bytes for the stash, its range is inside its block; NULL exactly when kmalloc of the total fails or the alignment is no power of two. |
| KernelHeap.AlignedRangeExactly | kernel/mm/heap.c:144-152 | The aligned range is inside the granted block if and only if size + align + 8 is at most 2^32 - 4. |
| KernelHeap.Heap.MagicTellsAligned | kernel/mm/heap.c:200-212 | The word below a pointer is the magic exactly for aligned pointers: for plain ones its low byte is the used byte. |
| KernelHeap.Heap.HeapValidate | kernel/mm/heap.c:162-182 | In memory: the headers become those of the validated list, live blocks keep every word. |
| KernelHeap.Heap.Kfree | kernel/mm/heap.c:184-223 | Frees exactly the block of the pointer's target, plain or aligned, as the free of the run theorem does; other live blocks keep every word. |
| KernelHeap.Heap.GetFragmentation | kernel/mm/heap.c:235-281 | Counts the free blocks and the largest of them over at most 10000 blocks; the restart branch is unreachable. |
| KernelHeap.Heap.Defrag | kernel/mm/heap.c:283-286 | Changes nothing in a reachable heap. |
| KernelHeap.Heap.Store | kernel/mm/heap.c:106-135 | A user's write inside its own payload keeps the heap valid. |
| FrameAllocator.OrAndNotValues | kernel/mm/pmm.c:20-28 | Setting a bit adds 2^j if it was clear, clearing takes it away if it was set. |
| FrameAllocator.SetAndClear | kernel/mm/pmm.c:20-33 | Setting or clearing a bit changes that bit and no other. |
| FrameAllocator.MarkOne | kernel/mm/pmm.c:20-28 | Writing one bitmap word adds or removes exactly one frame. |
| FrameAllocator.Pmm.CounterExact | kernel/mm/pmm.c:117-140 | The used counter is the number of frames marked used. |
| FrameAllocator.Pmm.constructor | kernel/mm/pmm.c:82-90 | Every frame starts out used. |
| FrameAllocator.Pmm.BitmapSet | kernel/mm/pmm.c:20-23 | Adds one frame to the used set. |
| FrameAllocator.Pmm.BitmapUnset | kernel/mm/pmm.c:25-28 | Removes one frame from the used set. |
| FrameAllocator.Pmm.BitmapFirstFree | kernel/mm/pmm.c:35-52 | The lowest free frame, or -1 exactly when all are used. |
| FrameAllocator.Pmm.AllocBlock | kernel/mm/pmm.c:117-129 | The lowest free frame becomes used; 0 only when all frames are used, and then nothing changes. |
| FrameAllocator.Pmm.FreeBlock | kernel/mm/pmm.c:131-140 | Exactly one frame becomes free; the allocator stays valid if and only if the frame was in use and is not frame 0. |
| FrameAllocator.TouchedIsRegionExactly | kernel/mm/pmm.c:94-95 | The casts to int leave the loop on exactly the frames of the region if and only if base and size are below 2^31 or the region holds no whole frame. |
| FrameAllocator.Pmm.InitRegion | kernel/mm/pmm.c:92-103 | Exactly the touched frames become free and frame 0 stays marked; the allocator stays valid if and only if all of them were in use and frame 0 is not among them. |
| FrameAllocator.Pmm.DeinitRegion | kernel/mm/pmm.c:105-115 | Exactly the touched frames become used; the allocator stays valid if and only if all of them were free. |
| PageTables.EntryParts | kernel/mm/vmm.c:69-90 | Frame and flags can be read back from a page table entry. |
| PageTables.WriteTableFlat | kernel/mm/vmm.c:69-110 | A write to one table entry changes one page of one flat map and no other address space. |
| PageTables.LinkOwns | kernel/mm/vmm.c:264-297 | Linking a prepared table turns it and its pages from pending into owned, each by one owner. |
| PageTables.MapOwns | kernel/mm/vmm.c:145-160 | Mapping a fresh frame gives it exactly one owner. |
| PageTables.UnmapOwns | kernel/mm/vmm.c:162-170 | Unmapping takes the owner away and leaves all others. |
| PageTables.UsedIsDetermined | kernel/mm/vmm.c:145-224 | The used set is determined by the address spaces: equal spaces mean equal bitmaps. |
| PageTables.DropSpaceOwns | kernel/mm/vmm.c:195-224 | Giving back exactly the frames of one space leaves every other space's ownership as it was. |
| AddressSpaces.Vmm.GetPageTable | kernel/mm/vmm.c:33-67 | Returns the table of a page, creating an empty one if asked; 0 exactly when there is no table and none was asked for or no frame is free, and then nothing changes. |
| AddressSpaces.Vmm.MapPage | kernel/mm/vmm.c:69-90 | Exactly one page of the flat map changes, to frame and flags; it fails exactly when the page has no table and no frame is free, and then changes nothing. |
| AddressSpaces.Vmm.UnmapPage | kernel/mm/vmm.c:92-110 | Exactly one page of the flat map is cleared. |
| AddressSpaces.Vmm.GetPhysicalAddress | kernel/mm/vmm.c:112-129 | Frame plus offset of the flat map's entry, or 0 when not mapped. |
| AddressSpaces.Vmm.IsMapped | kernel/mm/vmm.c:131-143 | True exactly when the flat map has a present entry. |
| AddressSpaces.Vmm.AllocPage | kernel/mm/vmm.c:145-160 | The page gets a frame that was free; it fails exactly when fewer frames are free than it takes, one for the page and one for an absent table, and then leaves memory, bitmap and counter as they were. A frame the page had before is lost. |
| AddressSpaces.RemapOwns | kernel/mm/vmm.c:69-90 | Entering a frame for a page makes the page its one owner; a frame entered there before keeps its bit and has no owner any more. |
| AddressSpaces.Vmm.FreePage | kernel/mm/vmm.c:162-170 | The page is unmapped and exactly its frame given back. |
| AddressSpaces.Vmm.CreateAddressSpace | kernel/mm/vmm.c:172-193 | A fresh directory with an empty user half and the kernel's upper half; 0 exactly when every frame is in use, and then nothing changes. |
| AddressSpaces.Vmm.DestroyTable | kernel/mm/vmm.c:206-220 | The inner loop frees the present pages of one table and the table, each once. |
| AddressSpaces.Vmm.DestroyAddressSpace | kernel/mm/vmm.c:195-224 | Exactly the frames of that space are given back. |
| AddressSpaces.CreateRunDestroy | kernel/mm/vmm.c:145-224 | Create, any run of page allocations and frees, each doing its work whenever the frames suffice, destroy: bitmap and used count are restored exactly; creation fails exactly when no frame is free. |
| AddressSpaces.Apply | kernel/mm/vmm.c:145-170 | One step of such a run: an unmapped page is mapped to a free frame if and only if enough frames are free, a freed page is unmapped and its frame given back, all other pages stay. |
| AddressSpaces.Vmm.CheckUserPtr | kernel/mm/vmm.c:303-338 | For a non-null pointer and a length above 0, true exactly when the pages from the first byte's to the last byte's are user, present and, if asked, writable. |
| AddressSpaces.SpacesWalkable | kernel/mm/vmm.c:319-327 | The walk of the check stays inside memory for every address space. |
| AddressSpaces.CheckCoversRange | kernel/mm/vmm.c:303-338 | On a range that does not wrap, that is exactly: every byte is an accessible user byte. |
| AddressSpaces.CheckRightExactly | kernel/mm/vmm.c:303-338 | The answer is right, byte by byte, if and only if the range does not wrap, or an end test refuses it, or it wraps into its own first page and that page is not accessible. |
| AddressSpaces.CheckOnWrappedRange | kernel/mm/vmm.c:308-320 | A range that wraps to an earlier page is accepted although it holds an inaccessible byte. |
| CloneSpaces.CopyEntry | kernel/mm/vmm.c:273-295 | One present entry gets a fresh frame with equal contents and flags; it fails exactly when no frame is free, and then changes nothing. |
| CloneSpaces.CloneTable | kernel/mm/vmm.c:256-297 | One table is copied and linked, or abandoned with its pages accounted for; which of them, the number of free frames decides. |
| CloneSpaces.ClonedFlat | kernel/mm/vmm.c:243-301 | Page by page the finished copy has the same presence and flags, fresh frames and equal contents. |
| CloneSpaces.FailureAccount | kernel/mm/vmm.c:264-283 | After a failed clone only the pages already copied for the unfinished table are still taken. |
| CloneSpaces.CloneAddressSpace | kernel/mm/vmm.c:243-301 | Fails if and only if fewer frames are free than the directory, tables and pages of the copy take, and names the allocation that failed. Success copies every user page, shares the kernel's upper half, takes exactly those frames and changes no frame in use; failure of a table allocation returns every frame, of a page allocation all but that table's pages. |
| CloneSpaces.NeedIsOwned | kernel/mm/vmm.c:245-297 | A copy takes exactly as many frames as the original has. |
| CloneSpaces.StopsShort | kernel/mm/vmm.c:245-283 | Each failing allocation means fewer free frames than the copy takes. |
| CloneSpaces.StopIsDetermined | kernel/mm/vmm.c:245-283 | The state before the call determines which allocation fails: directory, which table, or which page. |
| MessageRing.PushAppends | kernel/ipc/ipc.c:93-94 | An enqueue appends and overwrites no unread slot. |
| MessageRing.PopTakesFirst | kernel/ipc/ipc.c:130-131 | A dequeue returns and removes the oldest message. |
| MessageRing.CountBounds | kernel/ipc/ipc.c:75-131 | The ring holds at most 15 messages and tells empty from full. |
| KernelSteps.PickIsBest | kernel/sched/sched.c:337-354 | The pick is the first READY task of maximal priority, or none exactly when none is READY. |
| KernelInvariants.ScheduleKeeps | kernel/sched/sched.c:356-386 | A context switch keeps the invariant. |
| KernelInvariants.WakeWaiter | kernel/sched/sched.c:428-440 | sched_unblock does not check the state, but a waiter slot never names a zombie. |
| KernelInvariants.DeliverKeeps | kernel/ipc/ipc.c:93-100 | A delivery appends the message and wakes the registered receiver. |
| KernelInvariants.AcceptKeeps | kernel/ipc/ipc.c:130-137 | A receive takes the oldest message and wakes the registered sender. |
| KernelInvariants.ParkSendKeeps | kernel/ipc/ipc.c:79-89 | A sender that parks on a full queue, where nobody else is parked, is registered in the slot. |
| KernelInvariants.ParkReceiveKeeps | kernel/ipc/ipc.c:116-126 | A receiver that parks on an empty queue, where nobody else is parked, is registered in the slot. |
| KernelInvariants.ParkWaitKeeps | kernel/sched/sched.c:283-335 | A task parks in wait only when no matching child is a zombie. |
| KernelInvariants.ReapKeeps | kernel/sched/sched.c:283-335 | Reaping hands over the exit code once and removes the child. |
| KernelInvariants.ExitKeeps | kernel/sched/sched.c:190-210 | The exiting task becomes a zombie and a matching waiting parent becomes READY in the same step. |
| KernelRuns.SendKeeps | kernel/ipc/ipc.c:67-104 | A pass of msg_send keeps the invariant. |
| KernelRuns.ReceiveKeeps | kernel/ipc/ipc.c:106-141 | A pass of msg_receive keeps the invariant. |
| KernelRuns.WaitKeeps | kernel/sched/sched.c:283-335 | A pass of task_wait keeps the invariant. |
| KernelRuns.ForkKeeps | kernel/sched/sched.c:226-281 | task_fork keeps the invariant, whichever allocation fails. |
| KernelRuns.DestroyTaskKeepsExactly | kernel/sched/sched.c:168-188 | task_destroy keeps the invariant if and only if it is not given the current task. |
| KernelRuns.DestroyPortKeepsExactly | kernel/ipc/ipc.c:43-65 | port_destroy keeps the invariant if and only if nobody is inside one of the port's loops. |
| KernelRuns.TickKeeps | kernel/sched/sched.c:393-411 | A timer tick keeps the invariant. |
| KernelRuns.StepKeeps | kernel/sched/sched.c:44-440 | Every enabled kernel entry keeps the invariant and revives no zombie. |
| KernelRuns.StepKeepsExactly | kernel/sched/sched.c:44-440 | The rules for callers are exact: a possible entry or loop pass keeps the invariant if and only if it respects them. |
| KernelRuns.RunKeeps | kernel/ipc/ipc.c:17-154 | Every state of every interleaving satisfies the invariant. |
| KernelRuns.NoLostWakeup | kernel/ipc/ipc.c:75-141 | A BLOCKED sender faces a full queue, a BLOCKED receiver an empty one, and a waiting parent no matching zombie. |
| KernelRuns.WakeupInTheSameStep | kernel/ipc/ipc.c:96-137 | The step that makes a waiter's condition true makes it READY or lets it run. |
| KernelRuns.OneRunning | kernel/sched/sched.c:356-386 | At most one task runs, it is the current one, and ids are unique and below next_tid. |
| KernelRuns.FifoAlways | kernel/ipc/ipc.c:67-141 | Messages sent are messages received followed by the queue, at most 15 of them. |
| KernelRuns.ReapedOnce | kernel/sched/sched.c:283-335 | A child is reaped at most once, by its parent, with the code it exited with. |
| KernelRuns.ScheduleChooses | kernel/sched/sched.c:337-386 | schedule switches to the first READY task of maximal priority, and only if there is one. |
| KernelRuns.ReceiveKeepsExactly | kernel/ipc/ipc.c:106-141 | A pass of msg_receive keeps the invariant if and only if it does not park where another task is parked. |
| KernelRuns.SendKeepsExactly | kernel/ipc/ipc.c:67-104 | A pass of msg_send keeps the invariant if and only if it does not park where another task is parked. |
| KernelRuns.SecondReceiverStrandsFirst | kernel/ipc/ipc.c:116-126 | A receiver that parks where another is parked takes the only slot, and the first stays BLOCKED with a message waiting. |
| KernelRuns.SecondSenderStrandsFirst | kernel/ipc/ipc.c:79-89 | A sender that parks where another is parked takes the only slot, and the first stays BLOCKED with room in the queue. |
| KernelRuns.ExitKeepsExactly | kernel/sched/sched.c:190-210 | task_exit followed by schedule keeps the invariant if and only if someone is READY to take over. |
| KernelRuns.LonelyExitRevives | kernel/sched/sched.c:190-210 | With nobody READY an exited task keeps running, and blocking turns the zombie into a BLOCKED task. |
| KernelLaws.ScheduleLaw | kernel/sched/sched.c:356-386 | schedule runs the first READY task of highest priority with a slice of 10 and makes the running one READY; no other task changes, and without a READY task nothing does. |
| KernelLaws.SendLaw | kernel/ipc/ipc.c:67-104 | A pass of msg_send gives -1 exactly without the port, -2 exactly when 15 messages wait and the call may not block, parks exactly when it may, and else gives 0: the message is last in the queue, the registered receiver READY and off its slot, no other port or task changed. |
| KernelLaws.ReceiveLaw | kernel/ipc/ipc.c:106-141 | A pass of msg_receive gives -1 exactly without the port, -2 exactly when the queue is empty and the call may not block, parks exactly when it may, and else gives 0 and the first message, which leaves the queue; the registered sender is READY and off its slot, no other port or task changed. |
| KernelLaws.ReplyLaw | kernel/ipc/ipc.c:143-154 | msg_reply is a non-blocking send to the first port of the destination, and -1 if it has none. |
| KernelLaws.WaitLaw | kernel/sched/sched.c:283-335 | A pass of task_wait gives -1 exactly without a matching child and parks exactly when none is a zombie; else it gives the id and exit code of the first matching zombie, which was a child of the caller and is gone, once more on record. |
| KernelLaws.CreateTaskLaw | kernel/sched/sched.c:44-112 | A created task heads the list, READY, with a new id, the current task as parent, the given priority and a slice of 10; a failed allocation spends at most the id. |
| KernelLaws.ForkLaw | kernel/sched/sched.c:226-281 | task_fork fails exactly without a current task or memory; otherwise it returns the new id of a READY child that heads the list with its parent's priority and a slice of 10. |
| KernelLaws.DestroyTaskLaw | kernel/sched/sched.c:168-188 | Exactly the task with the id leaves the list; the others keep their places. |
| KernelLaws.ExitLaw | kernel/sched/sched.c:190-210 | The exiting task is a zombie with its code, a parent blocked for it or for any child is READY, and nothing else changes. |
| KernelLaws.TickLaw | kernel/sched/sched.c:393-411 | A tick takes one from the current task's slice, and reschedules exactly when none is left. |
| KernelLaws.SliceEnds | kernel/sched/sched.c:393-411 | The tick that ends a slice runs the best READY task for 10 ticks, and the task whose slice it was is READY. |
| KernelLaws.CreatePortLaw | kernel/ipc/ipc.c:17-41 | port_create returns the first free entry, which now has the owner and an empty queue; -1 exactly when there is none or 256 are counted. |
| KernelLaws.DestroyPortLaw | kernel/ipc/ipc.c:43-65 | port_destroy makes both registered waiters READY and the entry free; -1 exactly without the port. |
| KernelLaws.StepLawful | kernel/sched/sched.c:44-440 | Every entry and every resumed pass, in every state the invariant allows, obeys its law. |
| KernelLaws.RunLawful | kernel/ipc/ipc.c:17-154 | So does every step of every run from boot. |
| TaskList.Scheduler.constructor | kernel/sched/sched.c:15-21 | The empty list represents the boot state. |
| PortTable.Ipc.constructor | kernel/ipc/ipc.c:11-15 | The cleared port table beside the empty task list represents the boot state. |
| TaskList.Scheduler.FindTask | kernel/sched/sched.c:212-224 | Following the next pointers finds the node of the first task with the id, or NULL. |
| TaskList.Scheduler.PickNextTask | kernel/sched/sched.c:337-354 | Following the next pointers finds the node of the first READY task of maximal priority. |
| TaskList.Scheduler.Reschedule | kernel/sched/sched.c:356-386 | After the writes to two structs and to current_task, the linked list represents the scheduled state. |
| TaskList.Scheduler.SchedUnblock | kernel/sched/sched.c:428-440 | The linked list represents the state with exactly the named task READY. |
| PortTable.Ipc.WriteSlot | kernel/ipc/ipc.c:93 | Writing one slot of a port's queue array changes that port's ring and, queues being disjoint, no other port. |
| PortTable.Ipc.MsgSend | kernel/ipc/ipc.c:67-104 | Port table, queue memory and task list represent the state after one pass of the send loop, with its return code; SendLaw says what state and code those are. |
| PortTable.Ipc.MsgReceive | kernel/ipc/ipc.c:106-141 | Port table and task list represent the state after one pass of the receive loop, with its return code and message; ReceiveLaw says what those are. |
| PortTable.Ipc.MsgReply | kernel/ipc/ipc.c:143-154 | Memory represents the state with the message sent, without blocking, to the destination's first port. |
| PortTable.Ipc.PortCreate | kernel/ipc/ipc.c:17-41 | The first free entry gets the owner and a fresh queue array shared with no other port. |
| PortTable.Ipc.PortDestroy | kernel/ipc/ipc.c:43-65 | Memory represents the state with the registered waiters READY and the entry cleared. |
| TaskList.Scheduler.TaskCreate | kernel/sched/sched.c:44-166 | A fresh node is linked in front of the list, or a failed allocation leaves only the id spent. |
| TaskList.Scheduler.TaskFork | kernel/sched/sched.c:226-281 | A fresh node for the child is linked in front of the list, or a failed allocation leaves only the id spent; ForkLaw says what the child and the result are. |
| TaskList.Scheduler.TaskDestroy | kernel/sched/sched.c:168-188 | The walk with its prev pointer unlinks exactly the node of the named task; the other nodes keep their order. |
| TaskList.Scheduler.TaskExit | kernel/sched/sched.c:190-210 | The linked list represents the state with the task a zombie and its waiting parent READY. |
| TaskList.Scheduler.TaskWait | kernel/sched/sched.c:283-335 | The linked list represents the state after one pass of the wait loop, with its return value and status; WaitLaw says what those are. |
| TaskList.Scheduler.SchedTick | kernel/sched/sched.c:393-411 | The linked list represents the state after the tick, rescheduled when the slice ran out. |
| PortTable.Ipc.Perform | kernel/sched/sched.c:44-440 | Any enabled entry: memory that represents a state comes to represent the state after exactly that step. |
| PortTable.Ipc.Follow | kernel/ipc/ipc.c:17-154 | From boot, memory follows every run: after its entries it represents the run's last state, where the invariant holds. |
| PortTable.Ipc.Continue | kernel/ipc/ipc.c:75-125 | A task switched back in takes the next pass of the loop it is in. |
| DiskFormat.WordsRoundTrip | kernel/fs/diskfs.h:56-65 | Little-endian words read back as written. |
| DiskFormat.InodeRoundTrip | kernel/fs/diskfs.h:56-65 | An inode read back from its bytes is the inode written. |
| DiskFormat.SlotsIndependent | kernel/fs/diskfs.c:117-131 | With inodes of at most 128 bytes, writing one changes its own slot of the shared sector and no other. |
| DiskFormat.SlotsOverlap | kernel/fs/diskfs.c:90-118 | With larger inodes a write damages the next slot and the last slot leaves its sector. |
| DiskFiles.InodesAfterWrite | kernel/fs/diskfs.c:110-145 | On the decoded table, write_inode changes one inode. |
| DiskFiles.DiskFs.CacheIsTransparent | kernel/fs/diskfs.c:73-108 | Valid cache entries equal an uncached read of their slot. |
| DiskFiles.FilledCache | kernel/fs/diskfs.c:101-105 | Filling an entry after a miss keeps entries distinct and equal to the disk. |
| DiskFiles.UpdatedCache | kernel/fs/diskfs.c:134-142 | Updating the written inode's entry keeps entries distinct and equal to the disk. |
| DiskFiles.DiskFs.ReadInode | kernel/fs/diskfs.c:73-108 | Returns the inode on disk, cached or not. |
| DiskFiles.DiskFs.WriteInode | kernel/fs/diskfs.c:110-145 | Changes one inode, on disk and in the cache. |
| DiskFiles.FindFree | kernel/fs/diskfs.c:31-41 | The lowest clear bit, or -1 exactly when all are set. |
| DiskFiles.DiskFs.AllocBlock | kernel/fs/diskfs.c:147-159 | The lowest free block becomes used and the counter stays exact. |
| DiskFiles.DiskFs.FreeBlock | kernel/fs/diskfs.c:161-170 | The bit is cleared; the counter stays exact if and only if it was set, and out of range changes nothing. |
| DiskFiles.DiskFs.AllocInode | kernel/fs/diskfs.c:172-184 | The lowest free inode becomes allocated and the counter stays exact. |
| DiskFiles.DiskFs.FreeInode | kernel/fs/diskfs.c:186-195 | The bit is cleared; the counter stays exact if and only if it was set, and out of range changes nothing. |
| FileIo.BlockZeroIsLost | kernel/fs/diskfs.c:475-536 | A write that needs a new block reports all its bytes, and they are read back if and only if block 0 was marked used; otherwise the read returns nothing. |
| FileIo.FirstWriteIsLost | kernel/fs/diskfs.c:217-218 | On the disk as diskfs_format leaves it, the first write to any empty file reports its bytes and reads back empty. |
| FileBlocks.PutChunkOk | kernel/fs/diskfs.c:516-557 | One round of the write loop keeps blocks distinct, used and exactly those below the size, and every used block owned. |
| FileBlocks.PutChunkContent | kernel/fs/diskfs.c:516-557 | After one round the file reads back with the chunk spliced in. |
| FileBlocks.PutChunkOthers | kernel/fs/diskfs.c:516-557 | After one round every other file reads back unchanged. |
| FileBlocks.FreshBlockAtEnd | kernel/fs/diskfs.c:528-536 | A block is allocated only exactly at the end of a file that fills its blocks. |
| FileBlocks.WriteMore | kernel/fs/diskfs.c:516-557 | Rounds compose: bytes written so far followed by the chunk are spliced as one write. |
| FileBlocks.CountUpdate | kernel/fs/diskfs.c:16-24 | Changing one bit changes the number of clear bits by exactly that bit. |
| FileBlocks.NewFileOk | kernel/fs/diskfs.c:362-380 | A zeroed inode in a free slot is an empty file and changes no other. |
| FileBlocks.DropFileOk | kernel/fs/diskfs.c:638-646 | Freeing an inode and its blocks keeps all other files, and leaves no block used that no file owns. |
| FileBlocks.ReleaseStep | kernel/fs/diskfs.c:638-644 | Each block is still marked used when its turn to be freed comes. |
| FileIo.Gather | kernel/fs/diskfs.c:463-490 | The read loop, for any inode: the bytes of its blocks from offset on, up to the first missing block. |
| FileIo.ReadOfLive | kernel/fs/diskfs.c:437-493 | For a live inode the loop returns the slice of its byte array, or its blocks to the end when the range wraps into the file. |
| DiskFiles.DiskFs.ReadRaw | kernel/fs/diskfs.c:437-493 | For any inode, live or not, the result of the read loop on the inode and blocks on disk. |
| DiskFiles.DiskFs.Read | kernel/fs/diskfs.c:437-493 | For a live inode, the slice of the file's byte array unless the range wraps into the file. |
| FileIo.ReadIsSliceExactly | kernel/fs/diskfs.c:455-458 | A read of a live file returns the slice of its byte array if and only if the range does not wrap into the file, or the file fills its last block. |
| FileIo.RoundSteps | kernel/fs/diskfs.c:518-556 | On a live file a round puts one chunk into the file's block or the lowest free one; it fails only at the end of the file with the disk full. |
| DiskFiles.DiskFs.WriteRound | kernel/fs/diskfs.c:518-556 | In memory: block pointer, sector and bitmap change as the round says, and the free counter stays exact. |
| FileIo.WritingLoop | kernel/fs/diskfs.c:516-557 | On a live file the loop splices the bytes it reports and stops early only at a block boundary at or past the end of the file, with the disk full or at the maximum size. |
| DiskFiles.DiskFs.WriteLoop | kernel/fs/diskfs.c:513-557 | In memory: the loop ends with the draft and the count of the loop as a function, for any inode and offset. |
| FileIo.WriteOfLive | kernel/fs/diskfs.c:495-568 | On a live file, from an offset at or before its end, diskfs_write splices exactly the bytes it reports, sets the time and changes no other file. |
| DiskFiles.DiskFs.WriteRaw | kernel/fs/diskfs.c:495-568 | For any inode, live or not, and any offset: blocks, bitmap, sectors and the stored inode are those of the write as a function. |
| DiskFiles.DiskFs.Write | kernel/fs/diskfs.c:495-568 | On a live file: splices exactly the first r bytes, changes no other file, and falls short only at the maximum size or with no free block. |
| Directories.CStringOfPadded | kernel/fs/diskfs.c:384-385 | A name padded with zeros reads back as the name. |
| Directories.EntryRoundTrip | kernel/fs/diskfs.c:382-385 | A new entry reads back as its inode number and name. |
| Directories.EntryWritten | kernel/fs/diskfs.c:387 | Writing 32 bytes at an entry boundary replaces or appends one entry. |
| Directories.FindIsListing | kernel/fs/diskfs.c:417-434 | The scan for a name is application of the directory's map. |
| Directories.ListingAppended | kernel/fs/diskfs.c:382-387 | A new entry with a new name adds exactly one binding, and names stay unique. |
| Directories.ListingCleared | kernel/fs/diskfs.c:661-666 | Clearing an entry removes exactly its binding. |
| Directories.NewInode | kernel/fs/diskfs.c:362-380 | Allocating an inode changes no directory, and no entry names it yet. |
| Directories.EntryAppended | kernel/fs/diskfs.c:382-387 | The entry adds one name to one directory; every live entry still names a live inode, each once. |
| Directories.EntryRemoved | kernel/fs/diskfs.c:646-667 | One name leaves one directory; no entry is left naming the freed inode. |
| Directories.NamedOnceAt | kernel/fs/diskfs.c:661 | The first entry with the inode number is the one that was looked up. |
| Directories.WriteKeepsTree | kernel/fs/diskfs.c:495-568 | Writing to a plain file keeps every directory. |
| DiskFiles.DiskFs.ScanNames | kernel/fs/diskfs.c:417-434 | The loop finds the first live entry with the name. |
| DiskFiles.DiskFs.Lookup | kernel/fs/diskfs.c:399-435 | The inode bound to the name, or -1. |
| DiskFiles.DiskFs.AppendEntry | kernel/fs/diskfs.c:382-392 | The entry is written whole exactly when there is room, and otherwise nothing is. |
| DiskFiles.DiskFs.Create | kernel/fs/diskfs.c:334-397 | Each refusal with its cause and no effect; otherwise a new empty file in the lowest free inode with its parent and times, bound to the name exactly when there is room, all other files the same. |
| DiskFiles.DiskFs.FreeBlocks | kernel/fs/diskfs.c:638-644 | Exactly the nonzero blocks of the inode become free. |
| DiskFiles.DiskFs.ClearEntry | kernel/fs/diskfs.c:654-667 | Clears the entry that names the inode and changes no other file. |
| DiskFiles.DiskFs.Delete | kernel/fs/diskfs.c:614-672 | Each refusal with its cause and no effect; otherwise the file, its blocks and exactly its name are gone. |
| DiskFiles.DiskFs.Format | kernel/fs/diskfs.c:197-250 | The disk as the code formats it: an empty root directory, exact counters, and no block marked used, not even block 0. |
| DiskFiles.DiskFs.ReserveBlockZero | kernel/fs/diskfs.c:197-250 | With block 0 marked used as well, the formatted disk satisfies the whole invariant. |
| DiskFiles.DiskFs.Perform | kernel/fs/diskfs.c:334-672 | Any call keeps the whole invariant, answers as asked, and makes the change of the view that its answer reports, or none. |
| DiskRuns.WriteRefines | kernel/fs/diskfs.c:495-568 | A write is a splice of one byte array of the view. |
| DiskRuns.CreateRefines | kernel/fs/diskfs.c:334-397 | A creation adds one node and, with room, one binding to the view. |
| DiskRuns.DeleteRefines | kernel/fs/diskfs.c:614-672 | A deletion removes one node and one binding from the view. |
| DiskRuns.RunRefines | kernel/fs/diskfs.c:334-672 | Every run keeps blocks, bitmaps and directories consistent and is a run on byte arrays and finite maps. |
| DiskAccount.FreeCounter | kernel/fs/diskfs.c:145-168 | The free-block counter is the size of the disk less block 0 and the blocks that the sizes of the live files need: no run loses or doubles a block. |
| DiskAccount.TakenIsHeld | kernel/fs/diskfs.c:145-168 | The blocks marked used are block 0 and the blocks of the live files, each in one file at one place. |
| RamPaths.FindIsUnique | kernel/fs/fs.c:24-37 | In a tree with unique sibling names the search finds exactly the node of that place. |
| RamPaths.WalkJoined | kernel/fs/fs.c:80-134 | Walking a joined path is walking its parts in turn. |
| RamPaths.WalkReachable | kernel/fs/fs.c:109-134 | A walk never arrives at a node named "." or "..". |
| RamPaths.WalkTrail | kernel/fs/fs.c:80-134 | Walking n printed names from the root ends n levels deep, at the printed node if it is that deep. |
| RamPaths.TrailResolves | kernel/fs/fs.c:143-184 | A trail of at most n names resolves to its node exactly when the node is at most n levels deep. |
| RamPaths.PrintedResolves | kernel/fs/fs.c:558-607 | The printed directory, if it fits the path buffer, resolves to that directory exactly when it is at most 8 levels deep. |
| RamRoutes.ResolvesExactly | kernel/fs/fs.c:39-184 | A path resolves to a node if and only if its route, component by component from the root or the current directory, with "." staying and ".." one level up, ends there. |
| RamRoutes.PlacedExactly | kernel/fs/fs.c:39-141 | resolve_path gives the directory at the end of the route of all components but the last, and the last as the name. |
| RamRoutes.DotDotIsParent | kernel/fs/fs.c:174-180 | ".." resolves to the parent of the current directory, one level up, and at the root to the root. |
| RamRoutes.ResolveJoined | kernel/fs/fs.c:39-184 | Resolving a directory's path, a slash and a rest is resolving the rest inside that directory, while the whole fits the path buffer. |
| RamRoutes.PathDotDot | kernel/fs/fs.c:174-180 | A directory's path with "/.." after it names the directory above. |
| RamRoutes.DownAndUp | kernel/fs/fs.c:119-134 | A walk into a subdirectory and then ".." comes back. |
| RamTree.PlaceReachable | kernel/fs/fs.c:39-141 | resolve_path ends in a used directory not named "." or "..". |
| RamTree.ResolvedIsUsed | kernel/fs/fs.c:143-184 | A resolved path names a used node not called "." or "..". |
| RamTree.AddKeepsTree | kernel/fs/fs.c:329-337 | A new node keeps the tree and unique sibling names. |
| RamTree.AddKeepsPaths | kernel/fs/fs.c:329-337 | Every path that resolved still resolves to the same node. |
| RamTree.AddedResolves | kernel/fs/fs.c:304-338 | The path of a new node resolves to it exactly when its name is not "." or "..". |
| RamTree.RemoveKeepsTree | kernel/fs/fs.c:401-402 | Removing a node without children keeps the tree. |
| RamTree.RemovedIsGone | kernel/fs/fs.c:377-405 | No path resolves to the removed node, and what still resolves is what it was. |
| RamTree.SamePrinted | kernel/fs/fs.c:558-607 | Adding or removing another node does not change the printed current directory. |
| RamFs.ScanLast | kernel/fs/fs.c:58-65 | The scan finds the last slash. |
| RamFs.ScanFirst | kernel/fs/fs.c:85-92 | The scan finds the end of the first component. |
| RamFs.PrintTrail | kernel/fs/fs.c:586-603 | The two loops print the last names on the way down to the node, and the last buffer index they write is the length of the text. |
| RamFs.RamFs.constructor | kernel/fs/fs.c:252-265 | Only the root is used and the invariant holds. |
| RamFs.RamFs.FindFreeNode | kernel/fs/fs.c:12-22 | The first unused node, or -1 exactly when all are used. |
| RamFs.RamFs.FindNodeInDir | kernel/fs/fs.c:24-37 | The first used node of that directory and name, or -1. |
| RamFs.RamFs.WalkPath | kernel/fs/fs.c:80-134 | The component loop computes the walk. |
| RamFs.RamFs.Resolve | kernel/fs/fs.c:39-141 | Parses and walks: the parent and clipped base name, or the error. |
| RamFs.RamFs.ResolveNode | kernel/fs/fs.c:143-184 | The node a path names, or the error; RamRoutes.ResolvesExactly says which node that is. |
| RamFs.RamFs.Create | kernel/fs/fs.c:304-375 | Each error with its cause and no effect; otherwise one new node, the first free one, to which the path resolves exactly when its name is not "." or "..". |
| RamFs.RamFs.Remove | kernel/fs/fs.c:377-405 | Each error with its cause and no effect; otherwise one node goes and its path no longer resolves; the invariant survives exactly when it was not the current directory. |
| RamFs.RamFs.ChangeDir | kernel/fs/fs.c:558-607 | Moves to an existing directory and prints it afresh, or changes nothing; the writes stay inside the 128-byte buffer if and only if the printed path has at most 127 characters. |
| RamFs.LongPathOverrunsExactly | kernel/fs/fs.c:598-603 | With names of 31 characters the printed path fits the buffer if and only if the directory is at most three levels deep. |
| RamFs.NestedOverruns | kernel/fs/fs.c:598-603 | Four or more nested directories of such names are a valid tree whose printed path overruns the buffer. |
| RamFs.RamFs.Perform | kernel/fs/fs.c:304-607 | After any call that keeps the current directory, result, table and current directory are those asked for, the tree holds, and the printed path resolves to the current directory exactly when it is at most 8 deep. |
| RamFs.DotIsCurrent | kernel/fs/fs.c:143-184 | "." resolves to the current directory. |

## Left out

- Device drivers, interrupts, assembly, CR3 and TLB writes: hardware effects; a context switch is a change of the current task.
- Shell, editor, terminals, console, disk installer: user interface.
- kernel/core/elf.c and kernel/core/syscall.c: the loader writes through raw addresses, and dispatch is plumbing.
- kernel/lib/log.c, kernel/lib/debug_utils.c: the same ring argument as the message ports, but easier.
- kernel/lib/string.c: C strings are sequences; strncpy is modelled by what it leaves in the buffer.
- Heap: the heap lies at a word boundary from address 16 on, its size is a multiple of 4 and its end is below 2^32; memory is word-addressed, and the alignment mask and the power-of-two test are arithmetic.
- KernelHeap.Heap.KmallocAligned: requires size + align + 8 to be at most 2^32 - 4 for a power-of-two alignment; AlignedRangeExactly shows that this is the exact condition.
- KernelHeap.Heap.Kfree: pointers into the heap are payload pointers or live aligned pointers; any other pointer makes the C code read a header that is not there.
- KernelHeap.Heap.GetFragmentation: stated for heaps whose blocks all have positive size, as every run with sizes up to 2^32 - 4 has.
- pmm_alloc_blocks and pmm_free_blocks: the multi-frame scan tests bits past the end of the bitmap.
- FrameAllocator.Pmm.constructor: the block count is a multiple of 32.
- FrameAllocator.Pmm.FreeBlock: the frame has a bit in the bitmap; the C code would write past its end otherwise.
- FrameAllocator.Pmm.InitRegion: the touched frames have bits in the bitmap; the C code would write past its end otherwise.
- FrameAllocator.Pmm.DeinitRegion: the touched frames have bits in the bitmap.
- vmm_init's identity map, phys_to_virt and mappings in the kernel half: frames are indexed directly and the kernel directory is outside the ownership claims.
- AddressSpaces.Vmm.MapPage: user addresses and flags below 4096; a mapping of a frame that is already used elsewhere is allowed but then not owned.
- KernelRuns.StepKeeps: the entries respect the rules for callers; StepKeepsExactly shows that these rules are exact.
- PortTable.Ipc.PortCreate: failure of the queue allocation is not modelled, nor is a NULL message pointer.
- TaskList.Scheduler.TaskDestroy: the current task is not destroyed, which would leave current_task dangling.
- next_tid wrap-around, time accounting, CPU contexts, stacks and the child's address space in task_fork.
- diskfs_sync, diskfs_unmount, diskfs_readdir, diskfs_stat, superblock and bitmap sectors: bitmaps are sequences of booleans (bit packing is proved for the frame bitmap), and sector I/O always succeeds.
- DiskFiles.DiskFs.Read: the inode is live; ReadRaw covers the others.
- DiskFiles.DiskFs.Write: the inode is live and the offset is at most the size; WriteRaw covers the others, holes included.
- DiskFiles.DiskFs.Create: the parent inode is live; a deleted directory's inode still says it is a directory.
- DiskFiles.DiskFs.Delete: the parent inode is live.
- DiskFiles.DiskFs.Lookup: the directory inode is live.
- DiskFiles.DiskFs.Perform: writes go to plain files, from an offset at or before their end.
- The disk branches of fs.c, fs_read, fs_write, fs_append and fs_list_dir: glue, file contents and output text.
- RamFs.RamFs.ChangeDir: the text is a string of any length; what an overrun of the C buffer damages is not modelled.
- RamFs.RamFs.Perform: calls that remove the current directory are excluded, as Remove shows they break the invariant.
