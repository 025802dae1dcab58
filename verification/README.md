# Verified models of the AlmeidaOS kernel

AlmeidaOS is a small x86-64 kernel. This project models its memory management and its task
switching in Dafny and proves what they promise together, over every input and every run.

- **Buddy allocator.** `BuddyTree`, `BuddyRange` and `BuddyFit` describe the allocator's binary
  tree, `BuddySlots` the flat slot array (smallest order first) that stands for it, and `Buddy`
  the operations that rewrite the array. The abstract state is the set of live blocks. Between
  operations every split node has a used leaf below it; a tree with that property is determined
  by its live set, which is what makes allocation complete and freeing an exact inverse. While a
  range is being reserved the invariant is weakened to nodes around the range still to do.
- **Page tables.** `PageTables` has the four-level tables and the walk of section 5.3 of the
  AMD64 Architecture Programmer's Manual, volume 2; `PageAllocs`, `PageRanges` and
  `AddressSpaces` prove what mapping does to translations, up to runs of kernel mappings and
  process creations; `PageFrames` and `Paging` are the frame lists and the in-place code;
  `Layout` holds the addresses and the first context of a process, and `Processes` builds its tables
  in place; `Kmem` joins the kernel's table to the buddy
  allocator and `KmemBoot` takes the reserved regions out of the allocator. `Machines` puts the
  allocator, the kernel's table and the processes together, and `Boot` starts such a machine from
  the memory map and runs it.
- **Scheduler.** `Scheduling` is the step machine (user steps, timer ticks, additions) with the
  run theorems; `Scheduler` is the same machine over linked task nodes, task structs and the
  interrupt frame, each method proved to take the machine's step.
- **Region map.** `Sorting` is the shuffled in-place quicksort; `RegionMaps` and `MemMap` the E820
  map (section 15.1 of the ACPI specification) that is cut, sorted, merged and squashed in place.
- **Smaller parts.** `Bits` and `Powers` (power-of-two arithmetic in 64 bits), `RingBuffer` (the
  console lines) and `Numerals` (`ulltoa` against its parser).

A `BUG_ON` that fires is a failed outcome: `ok == false` or `None`, and the contracts say exactly
when. Where integer width matters it is written out (`WORD`, `WRAP`, the 28-bit and 36-bit fields
of a table entry). Clocks and random numbers are parameters or steps.

Findings, each with its exact condition and an input that shows it:

- `buddy_free` of an address outside the region does not fail: it succeeds if and only if the last
  byte of the region is in use, and frees that block (`Buddy.ReleaseForeign`,
  `Buddy.ForeignReleaseHappens`).
- `kfree` halts on a live allocation exactly when it starts at physical address 0
  (`Kmem.Kernel.Kfree`). It does when page 0 is usable memory (`Boot.KfreeHalts`); when the memory
  map reserves page 0, as the first-megabyte rule does, no call in any run halts so (`Boot.StartThenRun`).
- `kmem_init` skips a reserved region that reaches over the end of the content region, so `kmalloc` can
  hand out its addresses (`Boot.ReservedHandedOut`). What it leaves free is usable memory if and only if the
  map starts at 0, covers the content region, and every region that begins inside it and is not usable
  is a reserved one that ends inside it (`KmemBoot.KmemInit`, `KmemBoot.RestUsableExactly`); then every live
  byte is usable memory after every run (`Boot.StartThenRun`).
- The copy of the upper root entries alone would not let a process see a kernel mapping made later under
  an entry that was still empty (`AddressSpaces.RunViews`, `AddressSpaces.LaterMappingHappens`). No run of
  the booted machine gets there: `paging_setup` has filled the one entry that the kernel ever uses, so the
  kernel half is the same through every root (`Machines.Machine.HalfSame`, `Boot.StartThenRun`).
- `shuffle` never leaves the first element in its place: a rearrangement is a possible result if and only
  if it begins with another element, so an array of two is always swapped (`Sorting.ShuffleMoves`,
  `Sorting.ShuffleReaches`).
- `mem_alloc_amount` rounds the start up to the alignment, tests the rounded start, and then allocates
  from the unrounded one (`MemMap.MemoryMap.MemAllocAmount`, `MemMap.AmountNotAligned`).
- The test that the aligned request still fits is made modulo 2^64, so it passes a region in which it
  does not fit exactly when the aligned end passes 2^64 (`MemMap.EligibleExactly`, `MemMap.AlignedPastEnd`).
- The free-memory counter is wrong after an allocation exactly when the allocation takes a whole
  region (`MemMap.MemoryMap.MemAllocRegion`, `MemMap.FreeCounterDrifts`).

Also worth knowing: the stack mapping of `create_process` names the first text page as well, and does
not replace it (`PageRanges.ProcessImage`); and `need_resched` stays set while a single task runs, yet
waiting stays bounded, also when the 64-bit tick counter wraps at a value that is not a multiple of ten
(`Scheduling.BoundedWaiting`).

## Model

| member | source | states |
|---|---|---|
| BuddyTree.LeavesTile | src/kernel/mm/buddy.c:36-73 | the leaves of the tree tile the region: each address lies in exactly one leaf, the one the search by address ends at |
| BuddyTree.Determined | src/kernel/mm/buddy.c:220-250 | two maximally coalesced trees with the same live blocks are equal |
| BuddyTree.PendingDone | src/kernel/mm/buddy.c:322-352 | the weakened invariant around a range becomes the full one once an address of the range is used |
| BuddyTree.SplitFree | src/kernel/mm/buddy.c:156-177 | splitting a free block around a pending range changes no live block and keeps the weakened invariant |
| BuddyTree.UseFree | src/kernel/mm/buddy.c:178-184 | marking a free block used adds exactly that block to the live set and completes the invariant for its range |
| BuddyTree.FreeUsed | src/kernel/mm/buddy.c:224-226 | unmarking a used block removes exactly it and leaves only its ancestors to be coalesced |
| BuddyTree.MergeFree | src/kernel/mm/buddy.c:238-246 | merging two free buddies changes no live block and moves the pending range to the parent |
| BuddyTree.FreeStops | src/kernel/mm/buddy.c:229-236 | coalescing may stop at a buddy that is not free, or at the root: nothing is left to merge |
| BuddySlots.IndexInjective | src/kernel/mm/buddy.c:36-73 | different blocks have different slots |
| BuddySlots.IndexRange | src/kernel/mm/buddy.c:28-40 | the slot of every block lies inside the header |
| BuddySlots.FreeSlotIsFreeLeaf | src/kernel/mm/buddy.c:104-118 | the test for a non-empty unused slot holds exactly for the free leaves of the tree |
| BuddySlots.SplitLeaf | src/kernel/mm/buddy.c:120-130 | the three slot writes of a split turn the array into one that stands for the split tree |
| BuddySlots.MergeLeaves | src/kernel/mm/buddy.c:238-243 | the three slot writes of a merge turn the array into one that stands for the merged tree |
| BuddySlots.SlotsDetermined | src/kernel/mm/buddy.c:132-250 | canonical slot arrays with the same live blocks are equal slot for slot |
| BuddyFit.BlockSize | src/kernel/mm/buddy.c:135-139 | a block holds the request and is under twice its size, or is the 4096-byte minimum |
| BuddyFit.FitIffRoom | src/kernel/mm/buddy.c:104-189 | a free leaf of order at least k exists if and only if some aligned block of order k is clear of all live blocks |
| BuddyFit.BestByLive | src/kernel/mm/buddy.c:104-189 | the block split for a request, told from the live blocks alone: of the clear blocks that are not part of a larger clear one and are large enough, the smallest, and of those the lowest |
| BuddyFit.LeavesDisjoint | src/kernel/mm/buddy.c:79-189 | two different leaves share no address |
| BuddyRange.PiecesTile | src/kernel/mm/buddy.c:252-374 | the blocks a page range is cut into are disjoint and cover exactly the range |
| BuddyRange.ReserveInSteps | src/kernel/mm/buddy.c:266-267 | reserving one set of pieces and then a disjoint one is reserving their union |
| BuddyRange.ReserveCut | src/kernel/mm/buddy.c:370-372 | reserving a range and reserving its two parts at a cut succeed together and end in the same live set |
| BuddyRange.FreeRangeReserves | src/kernel/mm/buddy.c:344-350 | a wholly free range can be reserved, and its pieces become live |
| BuddyRange.ReservedAddresses | src/kernel/mm/buddy.c:252-374 | after a reservation an address is in use if and only if it was before or lies in the range |
| Buddy.Allocator.constructor | src/kernel/mm/buddy.c:79-102 | a fresh header stands for one free block of the region's size |
| Buddy.Allocator.FindFreeSlot | src/kernel/mm/buddy.c:104-118 | the lowest free block of the order, or proof that there is none |
| Buddy.Allocator.InsertChildSlot | src/kernel/mm/buddy.c:120-130 | writes exactly the left or the right child slot of the parent |
| Buddy.Allocator.SplitSlot | src/kernel/mm/buddy.c:156-177 | the slots then stand for the tree with the block split |
| Buddy.Allocator.Alloc | src/kernel/mm/buddy.c:132-189 | succeeds if and only if the size is legal and an aligned block of the order is free; takes the start of the lowest free block of the smallest sufficient order; the live set gains exactly that block; all merging stays complete |
| Buddy.Allocator.FindSlotByAddr | src/kernel/mm/buddy.c:191-218 | finds the leaf the address leads to if and only if it is used |
| Buddy.Allocator.Release | src/kernel/mm/buddy.c:220-250 | fails if and only if the pointer is null or its leaf is not used; otherwise the live set loses exactly that leaf and all merging is done |
| Buddy.Allocator.MergeSlots | src/kernel/mm/buddy.c:238-246 | the slots then stand for the tree with the two buddies merged |
| Buddy.Allocator.PreAlloc | src/kernel/mm/buddy.c:252-374 | terminates on every page-aligned range inside the region; succeeds if and only if each piece is free or inside a larger used block; then exactly the free pieces become live and the canonical invariant holds again |
| Buddy.Allocator.Descend | src/kernel/mm/buddy.c:273-355 | for a power of two the loop ends at the block the range fills, inside a used block, or at the exact middle where the range must be cut |
| Buddy.Allocator.RequestOrder | src/kernel/mm/buddy.c:135-139 | the order computed with clp2 and ilog2 is the least sufficient one, at least 12 |
| Buddy.SameLiveSameSlots | src/kernel/mm/buddy.c:79-374 | the header is a function of the live blocks, whatever was allocated, reserved and freed before |
| Buddy.AllocThenRelease | src/kernel/mm/buddy.c:132-250 | allocating and freeing the returned non-zero address restores every slot |
| Buddy.LeafInRegion | src/kernel/mm/buddy.c:191-218 | inside the region, free finds the live block around the address if there is one |
| Buddy.LeafOutsideRegion | src/kernel/mm/buddy.c:196-214 | a foreign address leads to the last leaf of the region |
| Buddy.ReleaseForeign | src/kernel/mm/buddy.c:191-250 | freeing a foreign address succeeds if and only if the last byte of the region is in use, and then frees exactly the block around it |
| Buddy.ForeignReleaseHappens | src/kernel/mm/buddy.c:191-250 | on every region: allocate all of it, free the first address behind it, and nothing is in use any more |
| Buddy.BytesConserved | src/kernel/mm/buddy.c:36-189 | used bytes plus free bytes equal the region's length |
| Bits.Flp2 | src/kernel/lib/math/round.c:16-24 | the greatest power of two at most the value; 0 for 0 |
| Bits.Clp2 | src/kernel/lib/math/round.c:27-36 | the least power of two at least the value; 0 for 0 and above 2^63 |
| Bits.RoundUpIsLeastMultiple | src/kernel/lib/math/round.c:11-13 | the least multiple of the power at least the value; 0 when the sum overflows |
| Bits.Ilog2 | src/kernel/lib/math/ilog2.c:22-39 | the floor of the binary logarithm; 0 for 0 |
| Bits.Upow | src/kernel/lib/math/upow.c:10-22 | the power modulo 2^64, by squaring |
| Bits.PowOfTwo | src/kernel/lib/math/upow.c:10-22 | a power of base two is the order's block size |
| PageFrames.RunConserves | src/kernel/mm/pageframe.c:60-126 | over any sequence of alloc and free calls the frames stay the same, and none is free and used or listed twice |
| PageFrames.TakeFresh | src/kernel/mm/pageframe.c:60-74 | a frame handed out was not in use |
| PageFrames.TakeThenGive | src/kernel/mm/pageframe.c:60-126 | alloc and then free of that frame restores both lists |
| PageFrames.Database.constructor | src/kernel/mm/pageframe.c:20-58 | one node per frame, the highest address first, in an acyclic free list |
| PageFrames.Database.Alloc | src/kernel/mm/pageframe.c:60-74 | fails exactly on an empty free list; otherwise relinks its head to the used list |
| PageFrames.Database.Release | src/kernel/mm/pageframe.c:113-126 | fails exactly for a frame that is not used; otherwise moves its node to the front of the free list |
| PageFrames.Database.DeleteNode | src/kernel/mm/pageframe.c:93-111 | unlinks the node with the address, wherever it is, and keeps both lists acyclic |
| PageFrames.Database.FindPredecessor | src/kernel/mm/pageframe.c:76-91 | the node before the first one with the address, null for the head, failure if there is none |
| PageTables.PathIsPage | include/kernel/lib/bit.h:18-20 | the four 9-bit indices agree if and only if the pages agree |
| PageTables.PathOnto | include/kernel/lib/bit.h:18-20 | every choice of four indices of a table is the path of some page |
| PageTables.EntryRoundTrip | src/kernel/mm/page.c:20-102 | an entry names its page exactly below 2^40 (the 28-bit mask), and page_alloc finds a table again exactly below 2^36 (the 36-bit shift) |
| PageTables.InstallWalk | src/kernel/mm/page.c:86-128 | installing a zeroed table changes no translation |
| PageTables.WriteWalk | src/kernel/mm/page.c:130-140 | writing an empty last-level entry changes the translation of that page only |
| PageAllocs.PageAllocMaps | src/kernel/mm/page.c:78-142 | page_alloc refines a map where the first mapping wins: an unmapped page gets the frame, a mapped one keeps its own, no other page changes; the frames taken become tables of this root and nothing else is touched |
| PageAllocs.EnoughFrames | src/kernel/mm/page.c:86-128 | page_alloc halts if and only if the pool holds fewer frames than tables are missing, and otherwise takes exactly those |
| PageAllocs.OneReference | src/kernel/mm/page.c:60-128 | each used frame but the root is referred to by exactly one interior entry |
| PageAllocs.RunOwns | src/kernel/mm/page.c:78-142 | over any run of page_alloc, frames move only from the pool to the tables reached from the root, with a constant union |
| PageRanges.MapRangeMaps | src/kernel/mm/page.c:201-212 | every page of the inclusive range is mapped to the matching frame unless it was mapped, and nothing else changes |
| PageRanges.RunFrames | src/kernel/mm/page.c:201-212 | mapping a run below one last-level table succeeds if and only if the pool has the frames its first page lacks, and takes exactly those |
| PageRanges.ProcessImage | src/kernel/task/process.c:70-86 | a new process sees nine text pages and two stack pages and nothing else; the text page at 0x40000 is not replaced |
| PageRanges.ProcessFrames | src/kernel/task/process.c:70-86 | the two mappings of a new process succeed if and only if its pool has three frames |
| PageRanges.MapRangeMarks | src/kernel/mm/page.c:86-140 | page_alloc and the range loop write no entry, at any level, with other flags than those they were given |
| AddressSpaces.KernelMapKeeps | src/kernel/mm/page.c:86-140 | a kernel mapping keeps every process's user half and shared root entries |
| AddressSpaces.SpawnKeeps | src/kernel/task/process.c:53-104 | creating a process keeps what every process sees and owns; every table that existed, the kernel's included, keeps every entry; the new process shares exactly the upper entries that the kernel's root has |
| AddressSpaces.SpawnHappens | src/kernel/task/process.c:53-104 | creating a process from fresh frames succeeds if and only if there are four of them |
| AddressSpaces.RunViews | src/kernel/task/process.c:101-104 | after any run, a kernel-half address translates through a process root as through the kernel root if its root entry existed at creation, and not at all otherwise; the user half is what was mapped at creation |
| AddressSpaces.LaterMapping | src/kernel/task/process.c:101-104 | of the copy alone: a mapping under a root entry that was empty at creation is translated by the kernel's root and not by the process's |
| AddressSpaces.LaterMappingHappens | src/kernel/task/process.c:101-104 | of the copy alone: beside a kernel root that is still empty, a two-event run ends so; Machines.Machine.HalfSame rules it out once the machine has booted |
| AddressSpaces.UserReach | src/kernel/task/process.c:70-104 | protection over any run: from ring 3 a process reaches its text and its stack, for writing too, and no other address, the kernel half included |
| Processes.CreateProcess | src/kernel/task/process.c:53-104 | the in-place construction of a process's tables is exactly the process-creation event of those runs, and fails exactly when it does |
| Paging.PageTable.Init | src/kernel/mm/page.c:60-72 | the frames are cleared, the last one is the root and the whole used list, the others are the free list highest first, nothing is mapped |
| Paging.PageTable.EnsureEntry | src/kernel/mm/page.c:86-99 | one table level: the in-place code takes the specification's step, and the two lists together keep their frames |
| Paging.PageTable.PageAlloc | src/kernel/mm/page.c:78-142 | the in-place code takes the specification's step, fails exactly when it does, and the two lists together keep their frames |
| Paging.PageTable.ContiguousMap | src/kernel/mm/page.c:201-212 | the loop maps the specified range, fails exactly when a frame is missing, and the two lists together keep their frames |
| Paging.UsedIsReached | src/kernel/mm/pageframe.c:60-74 | a frame is in the database's used list if and only if a walk from the root leads to it |
| Paging.MapPages | src/kernel/mm/page.c:78-142 | any run of page_alloc on the real lists keeps that, fails exactly when the specified run does, and keeps the frames of the two lists |
| Paging.InitThenMap | src/kernel/mm/page.c:60-142 | after paging_init and any run of page_alloc the free and used lists hold exactly the region's frames, and the used list holds exactly the root and the tables reached from it |
| KmemBoot.NextReflects | src/kernel/mm/kmem.c:18-28 | reserving the next region adds exactly its addresses to those in use |
| KmemBoot.RestUsableExactly | src/kernel/mm/kmem.c:25-27 | the regions chosen protect everything that is not usable if and only if the map covers the content region and no region of another kind is cut by its end |
| KmemBoot.NotChosen | src/kernel/mm/kmem.c:25-27 | the addresses of a region that is skipped and not usable are left free |
| KmemBoot.ChosenExactly | src/kernel/mm/kmem.c:20-27 | the regions chosen are the reserved ones of which no address lies outside the content region |
| KmemBoot.KmemInit | src/kernel/mm/kmem.c:18-35 | on a map of page-aligned reserved regions no reservation halts; afterwards an address is in use if and only if it lies in a region of the map that is reserved and ends inside the content region or with it, and the rest is usable memory if and only if the map covers the content region and no other region that is not usable begins inside it |
| Kmem.LinearKept | src/kernel/mm/kmem.c:43-47 | mapping a run at its kernel addresses keeps every mapped kernel page v at v minus the kernel base, maps all its bytes and unmaps none |
| Kmem.Kernel.Join | src/kernel/mm/init.c:87-94 | the invariant holds with no allocation made |
| Kmem.Kernel.Kmalloc | src/kernel/mm/kmem.c:37-55 | succeeds if and only if there is a block and, for mapped memory, a frame for every missing table; returns a new block at its kernel address, all other used blocks stay used, and the invariant holds: the kernel half is linear, every byte of every mapped live allocation is mapped, the database's used list is the tables reached |
| Kmem.Kernel.Grant | src/kernel/mm/kmem.c:38-39 | the block granted is new, page aligned, inside the region and of the least sufficient order |
| Kmem.NewBlock | src/kernel/mm/kmem.c:38-39 | the block granted lies inside the region, is of the least sufficient order and clear of every block in use |
| Kmem.Kernel.MapBytes | src/kernel/mm/kmem.c:41-47 | succeeds exactly when the mapping of the range does; all requested bytes are then mapped linearly, all earlier mappings stay, nothing is mapped above the range, and with kernel flags every table stays closed to ring 3 |
| Kmem.Kernel.Kfree | src/kernel/mm/kmem.c:57-59 | removes exactly that allocation and keeps the invariant with the mappings in place; fails exactly at physical address 0 |
| Kmem.Kernel.LiveDisjoint | src/kernel/mm/kmem.c:37-59 | two live allocations share no physical byte |
| Kmem.Kernel.TablesSafe | src/kernel/mm/kmem.c:37-59 | no live allocation overlaps a frame of the page tables |
| Kmem.Kernel.UsedFrames | src/kernel/mm/kmem.c:37-59 | throughout, a frame is in the kernel's used list if and only if its root leads to it |
| Kmem.PagingSetup | src/kernel/mm/init.c:68-101 | succeeds if and only if there is a block for the tables and both mappings find their frames in it; establishes that invariant, with the kernel image and every frame of the page tables, free or used, mapped at its kernel address, and nothing beyond the first root entry of the kernel half |
| Machines.Machine.Kmalloc | src/kernel/mm/kmem.c:37-55 | the same success condition with processes present, and exactly that mapping made: nothing a process sees or owns is disturbed |
| Machines.Machine.Kfree | src/kernel/mm/kmem.c:57-59 | frees exactly the allocation; page-table blocks, reserved blocks and the stacks of other processes stay in use |
| Machines.Machine.LiveFrameFresh | src/kernel/task/process.c:53-61 | the memory kmalloc gives for a process's tables holds no table of anyone |
| Machines.Machine.BuildProcess | src/kernel/task/process.c:53-104 | in such memory a process is created if and only if there are four frames, and the whole machine's invariant holds again |
| Machines.Machine.CreateProcess | src/kernel/task/process.c:49-104 | succeeds if and only if both allocations do and four frames are asked for; takes exactly two blocks, adds exactly one process with the given text, and all that the process sees as its stack lies in the block allocated for it |
| Machines.Machine.StackOwned | src/kernel/task/process.c:77-86 | in every state the stack a process sees lies in one live allocation |
| Machines.Machine.StackSafe | src/kernel/task/process.c:77-86 | in every state no byte of a process's stack belongs to another allocation, a reserved block, a page table or the stack of another process |
| Machines.Machine.FirstInstruction | src/kernel/task/process.c:93-99 | when the timer first dispatches a new task it is in ring 3 with interrupts on and cleared registers; its instruction pointer leads to the second page of its text, and the bytes below its stack pointer to its own stack from the top down |
| Machines.Machine.Reach | src/kernel/task/process.c:70-104 | in every state of the machine a process reaches from ring 3 its text and its stack, for writing too, and nothing else |
| Machines.Machine.KernelReach | src/kernel/mm/kmem.c:43-47 | what the kernel has mapped it can write, and ring 3 cannot reach through the kernel's root |
| Machines.Machine.Views | src/kernel/task/process.c:101-104 | in every state of the machine a process sees its image in the user half, and in the kernel half what its copied root entries lead to |
| Machines.Machine.HalfSame | src/kernel/task/process.c:101-104 | in every state of the machine every address of the kernel half translates through each process root as through the kernel's root, mappings made after the copy included |
| Machines.Machine.NoneAtZero | src/kernel/mm/buddy.c:220-222 | with the first byte reserved at boot, no live allocation starts at address 0 |
| Machines.Machine.ReservedSafe | src/kernel/mm/kmem.c:33-34 | no live allocation holds an address that was reserved at boot |
| Machines.Machine.TablesSafe | src/kernel/mm/kmem.c:37-59 | no live allocation overlaps a page table, of the kernel or of a process |
| Boot.Start | src/kernel/mm/init.c:56-110 | succeeds if and only if there is a block for the tables beside what is taken out and both mappings find their frames; in use are then exactly that block and the addresses of the reserved regions that end inside the content region |
| Boot.Run | src/kernel/mm/kmem.c:37-59 | any run of allocations, frees and process creations: a trace from the old state to the new in which each call has taken or given back exactly its blocks and left exactly its tables; the run stops only at a call whose reason to halt holds, raw allocations and frees then leave the machine in order, and with the first byte reserved no free halts |
| Boot.Serve | src/kernel/mm/kmem.c:37-59 | one call of such a run: what it did, or why it halted |
| Boot.Conserved | src/kernel/mm/kmem.c:37-59 | over any run nothing that was in use is lost, and the blocks in use grow by those outstanding and two for each new process |
| Boot.FreeTheFirst | src/kernel/mm/kmem.c:57-59 | freeing the first of two allocations leaves exactly the second |
| Boot.RunRestores | src/kernel/mm/kmem.c:37-59 | a run that creates no process and frees whatever it allocates leaves every slot of the allocator as it was |
| Boot.StartThenRun | src/kernel/mm/kmem.c:30-59 | boot, then any such run with its trace: no live allocation holds an address of a reserved region that ends inside the content region or with it; if no other region that is not usable begins there, every live byte is usable memory; if address 0 is taken, kfree never halts; the kernel half is the same through every process root, every process still has its stack, and from ring 3 reaches nothing but its text and that stack |
| Boot.ReservedHandedOut | src/kernel/mm/kmem.c:25-27 | on a merged map whose last reserved region crosses the end of the content region, a live allocation that holds a reserved address |
| Boot.EndReserved | src/kernel/mm/kmem.c:25-27 | a reserved region that ends exactly with the content region is taken out, and the last page handed out is another |
| Boot.KfreeHalts | src/kernel/mm/buddy.c:220-222 | on a map whose page 0 is usable, an allocation at address 0 that kfree refuses |
| Scheduling.TickKeepsViews | src/kernel/task/process.c:114-143 | a timer tick changes no task's context, switches from a task to itself included |
| Scheduling.Isolation | src/kernel/task/process.c:109-143 | over any interleaving of user steps, ticks and additions, what a task finds is the last context it left itself |
| Scheduling.Resumes | src/kernel/task/process.c:127-141 | a dispatched task resumes with exactly its own context |
| Scheduling.LoadedIsCurrent | src/kernel/task/process.c:109-112 | over any run the loaded page table and kernel stack are those of the current task |
| Scheduling.JiffiesCount | src/kernel/arch/pit.c:113-126 | the counter counts every tick of any run modulo 2^64 |
| Scheduling.BoundedWaiting | src/kernel/task/scheduler.c:37-106 | with two queued tasks, the task at position i is dispatched within the ticks to the next multiple of ten plus 10*i, whatever is added and also when the counter wraps |
| Scheduling.WaitsAtMost | src/kernel/arch/pit.c:113-126 | hence within 10*(i+1) ticks |
| Scheduling.TimeSlice | src/kernel/task/scheduler.c:42-44 | a running task keeps the processor, whatever is added, over every run with fewer ticks than are due |
| Scheduling.SliceEnds | src/kernel/task/scheduler.c:42-44 | with a second task queued it loses it to the head of the queue at exactly the due tick |
| Scheduling.FirstDispatch | src/kernel/task/scheduler.c:22-45 | after scheduler_init on an empty queue the first tick of any run dispatches that task, alone or not, from its first context |
| Scheduling.LoneTask | src/kernel/task/scheduler.c:85-87 | a lone task stays current in its own context, and the request to reschedule is set exactly once its slice is over |
| Scheduling.PendingSwitch | src/kernel/task/scheduler.c:85-104 | with that request set, the first tick after a second task was queued switches to the head |
| Scheduling.RoundRobin | src/kernel/task/scheduler.c:92-101 | without additions the k-th dispatch runs the k-th queued task, round and round |
| Scheduling.FullRound | src/kernel/task/scheduler.c:92-101 | n dispatches run each of n queued tasks once and restore the queue |
| Scheduler.RunQueue.MoveEndOfList | src/kernel/task/scheduler.c:48-67 | the tail search ends and the element is the last node of an acyclic list |
| Scheduler.RunQueue.SchedulerInit | src/kernel/task/scheduler.c:22-35 | takes the machine's first-task step |
| Scheduler.RunQueue.SchedulerTick | src/kernel/task/scheduler.c:37-46 | takes the machine's tick decision, which the time slice and the first dispatch fix from both sides |
| Scheduler.RunQueue.SchedulerAdd | src/kernel/task/scheduler.c:69-77 | takes the machine's add step: the task is queued last |
| Scheduler.RunQueue.ContextSwitch | src/kernel/task/process.c:114-143 | the outgoing task holds the interrupted frame, the frame holds the incoming task's context, all six fields |
| Scheduler.RunQueue.LaunchProcess | src/kernel/task/process.c:109-112 | page-table root and ring-0 stack are the task's |
| Scheduler.RunQueue.Schedule | src/kernel/task/scheduler.c:79-106 | takes the machine's scheduling step on the real list; the loaded root and stack belong to the dispatched task |
| Scheduler.RunQueue.SwitchToHead | src/kernel/task/scheduler.c:89-104 | the switching half: the head of the queue runs, and moves to the end of the real list |
| Scheduler.RunQueue.TimerInterrupt | src/kernel/interrupt/idt.c:199-226 | takes the machine's timer step from every valid state, so the check for an initialised scheduler never fires |
| Sorting.Shuffle | src/kernel/lib/shuffle.c:17-32 | exactly the exchanges that the random numbers choose, a permutation of the first n elements, all indices in bounds |
| Sorting.ShuffleMoves | src/kernel/lib/shuffle.c:27-31 | whatever the random numbers, what comes first was not first before |
| Sorting.ShuffleReaches | src/kernel/lib/shuffle.c:27-31 | and every rearrangement that begins with another than the first element is the result for some random numbers |
| Sorting.ScanRight | src/kernel/lib/qsort.c:29-31 | stays in bounds, passes only elements below the pivot, and stops at one that is not below it or at the end |
| Sorting.ScanLeft | src/kernel/lib/qsort.c:33-35 | stays in bounds, passes only elements above the pivot, and stops at one that is not above it |
| Sorting.Partition | src/kernel/lib/qsort.c:22-44 | a permutation of the range with everything up to the returned index at most the pivot and everything after it at least the pivot |
| Sorting.Sort | src/kernel/lib/qsort.c:46-57 | terminates with the range sorted, permuted and the rest unchanged |
| Sorting.Qsort | src/kernel/lib/qsort.c:59-67 | a sorted permutation for every total preorder and every random sequence (section 7.20.5.2 of ISO/IEC 9899:1999) |
| RegionMaps.SortedTiling | src/kernel/arch/mem.c:60-70 | sorting by base address puts any rearrangement of a gap-free map back in order |
| RegionMaps.UsableFits | src/kernel/arch/mem.c:217-220 | when no two usable regions touch, a range that is usable throughout lies in one region |
| RegionMaps.CutReserves | src/kernel/arch/mem.c:223-272 | in all four split cases exactly the requested interval changes from usable to reserved |
| RegionMaps.MapDetermined | src/kernel/arch/mem.c:73-158 | a merged map is determined by which addresses are usable |
| RegionMaps.TilingTotal | src/kernel/arch/mem.c:27-42 | the lengths of a gap-free map add up to the space it spans |
| MemMap.CarvedIsCut | src/kernel/arch/mem.c:230-272 | the entries changed and appended are a rearrangement of the cut map |
| MemMap.MemoryMap.CombineMergeableRegions | src/kernel/arch/mem.c:73-115 | the remaining entries tile the same space with the same addresses usable, neighbours of different classes; the read one slot past the end merges nothing |
| MemMap.MemoryMap.SquashMemRegions | src/kernel/arch/mem.c:117-158 | the map is exactly its non-empty entries in order, zeroed slots behind them |
| MemMap.MemoryMap.MemAllocRegion | src/kernel/arch/mem.c:207-285 | succeeds if and only if the range is non-empty and usable throughout; then exactly it becomes reserved and the map still tiles the same space; the free counter is reduced unless a whole region was taken |
| MemMap.MemoryMap.CalcPhysMemoryStats | src/kernel/arch/mem.c:27-42 | the counters are the spanned space and the usable bytes |
| MemMap.MemoryMap.FirstEligible | src/kernel/arch/mem.c:295-305 | the first usable region that passes both size tests, or proof that none does |
| MemMap.MemoryMap.MemAllocAmount | src/kernel/arch/mem.c:287-317 | succeeds if and only if the arguments are legal and some region is eligible; reserves the first eligible region's first bytes, so the result is aligned exactly when that region's start is |
| MemMap.EligibleExactly | src/kernel/arch/mem.c:299-305 | a usable region that is long enough is taken if and only if the least multiple of the alignment at or above its start leaves room for the request, or their sum passes 2^64 |
| MemMap.EligibleUnaligned | src/kernel/arch/mem.c:291-305 | the alignment 0 is let through, and then exactly a region at address 0 is taken |
| MemMap.AlignedPastEnd | src/kernel/arch/mem.c:305-306 | the sum does pass 2^64 for a region and an alignment for which the aligned request does not fit |
| MemMap.AmountNotAligned | src/kernel/arch/mem.c:302-306 | asked for a page-aligned page, it returns one that starts at 0x100800 |
| MemMap.FreeCounterDrifts | src/kernel/arch/mem.c:223-228 | a one-page map, allocated whole, still counts the page as free |
| RingBuffer.Ring.Init | src/kernel/lib/ringbuffer.c:15-17 | the ring holds no line |
| RingBuffer.Ring.Put | src/kernel/lib/ringbuffer.c:20-34 | the ring holds the last lines in order, the new one included |
| RingBuffer.Ring.ForEach | src/kernel/lib/ringbuffer.c:36-52 | visits exactly the last min(n, size) lines, oldest first |
| RingBuffer.PutThenVisit | src/kernel/lib/ringbuffer.c:15-52 | the same after any sequence of puts |
| Numerals.Strrev | src/kernel/lib/string.c:88-98 | the characters are reversed in place and the rest is unchanged |
| Numerals.Ulltoa | src/kernel/lib/string.c:141-167 | writes the terminated numeral; the empty string for an unsupported radix |
| Numerals.DigitTable | src/kernel/lib/string.c:156-160 | digits in the usual notation, letters in lower case |
| Numerals.NumeralParses | src/kernel/lib/string.c:141-167 | parsing the numeral gives the value back, and it has no leading zero |
| Numerals.ParseNumeral | src/kernel/lib/string.c:141-167 | every numeral without leading zeros is the one written for its value |
| Numerals.NumeralLength | src/kernel/lib/string.c:141-167 | a 64-bit value needs at most 22, 20 or 16 digits |

## Left out

- Buddy.Allocator.PreAlloc: ranges that are not page aligned or leave the region, on which the loop does not end.
- Buddy.Allocator.FindFreeSlot: orders outside 12 to the region's order, which no caller passes.
- PageAllocs.PageAllocMaps: flags without the present bit, which no caller passes; table frames are page aligned and below 2^36, physical pages are reduced to 40 bits as the entry does.
- PageRanges.MapRangeMaps: runs that pass the end of the 48-bit space, and flags without the present bit.
- PageRanges.RunFrames: runs that span several last-level tables, and flags without the present bit.
- PageAllocs.EnoughFrames: flags without the present bit, as for PageAllocs.PageAllocMaps.
- AddressSpaces.SpawnKeeps: the process's frames are unused ones, as a hypothesis; Machines.Machine.BuildProcess proves it for frames that kmalloc gave.
- Kmem.Kernel.Kmalloc: the memory's contents (KMEM_ZERO); after a failure for want of a table frame the kernel halts and nothing is claimed.
- Kmem.PagingSetup: the number of table frames is a parameter, because paging_calc_space_needed rounds up by the quotient and under-counts below 1 GiB; the second raw block that stores the frame database and its mapping.
- Boot.Start: the same parameter; the memory map is given as it is before kmem_init; the kernel image ends below 2^39.
- Boot.Run: a call for mapped memory or a process that halts may leave the machine half way, and nothing is claimed of it then.
- KmemBoot.KmemInit: reserved regions that are not whole pages, on which the reservation does not end; the content region starts at address 0, as its one caller has it.
- Processes.CreateProcess: the task struct's other fields and its pid, and the sizes that paging_calc_space_needed gives; the region of frames is a parameter.
- Machines.Machine.CreateProcess: the blocks for the task struct, the frame database and the kernel stack; the stack's block is taken before the tables are built rather than between their two mappings.
- Machines.Machine.Kfree: process tables are never freed, as in the code; only allocations that kmalloc's callers still hold can be.
- Scheduler.RunQueue.TimerInterrupt: the clock, the log line every thousand ticks and the interrupt controller.
- Scheduler.RunQueue.SchedulerAdd: adding to an empty queue, which dereferences null in the code; the allocation of the list node.
- Sorting.Qsort: elements are values, not item_width bytes exchanged one by one.
- MemMap.MemoryMap.MemAllocRegion: maps with gaps or overlaps, for which merging adds lengths; three zeroed slots behind the map and an end below 2^64 are required.
- MemMap.MemoryMap.CombineMergeableRegions: maps with holes between reserved entries.
- RingBuffer.Ring.Put: the 81-byte limit of a line, and a ring of size 0, on which the code divides by zero.
- Numerals.Ulltoa: lltoa and ltoa for negative values, which are narrowed to int.
- page_free and page_free_resources: the emptiness test looks at one byte of the table only.
- mem_reserve_first_mb and mem_init's first merge of the BIOS map, which may have gaps and overlaps.
- vsnprintf and printk, the RTC conversion, pid search, abs, the generator behind rand.
- Interrupt controller, timer programming, CMOS, serial, VGA, keyboard, MSR and CPUID code, assembly files and the boot loader.
- TLB behaviour, the no-execute and global bits of pages, and concurrency other than the timer interrupt between user steps.
