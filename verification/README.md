# shedOS: the memory subsystem and what it promises to processes

shedOS is a small x86-64 kernel. This project models its memory subsystem as one layered machine and
proves that the whole stack gives every process a private memory.

The layers, each in its own file:

- `Bits.dfy`, `Addresses.dfy`: 64-bit words, and every mask and shift the kernel uses, turned into
  division and remainder once.
- `Bitmap.dfy`, `FrameAllocator.dfy`, `FrameManager.dfy`: the byte bitmap and the physical frame
  allocator.
- `PageTables.dfy`, `PageTableCopy.dfy`, `PageTableProtect.dfy`: four-level page tables that live in
  the physical memory they describe: walk, map, unmap, copy of the lower half, write protection.
- `CopyOnWrite.dfy`, `Fork.dfy`: the page-fault step and the address-space part of fork.
- `Scheduler.dfy`: the ring of tasks, the deadline, and the saved contexts.
- `System.dfy`, `Refinement.dfy`: runs of timer ticks, forks, user loads and stores and caching of
  translations by the processor, next to an ideal machine in which fork copies memory at once and each
  task owns a map from pages to words. The main theorem is that the two give the same outputs.
- `Waiting.dfy`: waiting, contexts, the quantum and the task ids in runs of the whole kernel.
- `FaultCaching.dfy`, `ForkCaching.dfy`, `CachingRuns.dfy`: faults, forks and whole runs on a processor that
  caches and drops translations at any time, also in the middle of a fault or a fork.
- `DirtyFrames.dfy`, `StaleFrames.dfy`, `CopyImage.dfy`, `StaleMachine.dfy`: what a copy does without the
  assumption that free frames are zero-filled, word by word, exactly when this makes no difference, and a
  machine on which it does.
- `FrameReuse.dfy`: drivers that take frames, fill them and give them back.
- `Safety.dfy`, `KernelHalf.dfy`: what holds in every reachable state of the address spaces and of the kernel's
  own translations.
- `DirectMapping.dfy`, `Boot.dfy`: the direct map of physical memory; how the invariant is established.
- `Paging.dfy`, `Kernel.dfy`, `Startup.dfy`: the code itself, as classes over one array of words, a byte
  bitmap and `next` pointers. Each method is proved equal to the function that specifies it, and
  `Kernel.Execute` carries the main theorem over to the code.
- `Heap.dfy`, `HeapPages.dfy`, `HeapRuns.dfy`, `Drive.dfy`, `StrUtil.dfy`: three smaller cores: the kernel heap,
  the pages behind it and runs that allocate from it, byte reads over chunked block reads, and number
  printing and parsing.

## How to read it

Physical memory is a sequence (in the code: an array) of 64-bit words, 512 to a frame. The functions
follow the C code branch by branch and return `None` where the C code would go on with a null or
out-of-range pointer. The proofs carry a ghost assignment of roles to frames: unused, table of one
address space at one level and prefix, table of the shared kernel half, or data. `Ok` says that memory
agrees with the roles; `Get` is the flat view, the leaf entry that a walk finds for a page number.

`Inv` is the invariant of all runs: `Ok`; no stale translation is cached (`Coherent`); a frame that is
mapped writable in a lower half is mapped once (`Exclusive`); and the tasks have distinct tables, the
first of which is active. `Startup.BootKernel` establishes it from the memory map of the boot loader and
cleared usable memory, and every event keeps it.

Assumptions, stated where they are used:

- **Free frames that can still be handed out are zero-filled** (`FreeOk`): those from the hint of the
  allocator on. `paging_copy_recursive` does not clear the interior tables it allocates
  (`kernel/src/memory/paging.c:191`), nor does `vmm_request_at` clear pages. A release keeps the assumption
  exactly if the frames that it puts before the hint are clean (`FrameReuse.ReleaseKeepsFreeOkIff`);
  drivers that give back dirty buffers without moving the hint back do not touch it
  (`FrameReuse.DriversAreInvisible`). Without it, `CopyImages.CopySpaceIs` gives the copy word by word over
  the state before the call, and `CopyImages.CopyTranslatesIffBefore` the exact condition under which it
  translates as the parent; clean contents of the frames that it is going to take are enough
  (`StaleFrames.CleanAheadCopiesFaithfully`), and without them the child can see a page of the parent twice
  (`StaleMachine.CopyOfWornAliasesAPage`).
- **There are enough free frames** before each event (`Enough`). No caller checks the result of a frame
  request. The costs are exact, so this is what the code needs.
- **The kernel half of every top-level table is present**, as `paging_initialize` leaves it. Huge pages
  occur only in the direct maps of slots 256 and 511.
- **Tables are reached through the direct map.** The code follows pointers to tables in the direct map; the
  model reads physical memory. `Boot.InitializeTablesEffect` and `KernelHalf.RunsKeepTheDirectMap` justify
  this: the direct map leads to every frame below 4 GiB and in the memory map, from the start on and in
  every reachable state, and a pointer to a frame is an address of its page there
  (`Addresses.PointersUseTheDirectMap`).
- **No store goes to a read-only page at 0x7ffffffffff8** (`AllSeen`). `ptr_is_user` does not take this
  word, the last one below 0x800000000000, for a user address. This is the exact condition
  (`RunsAgreeIffStoresAreSeen`): the outputs agree if and only if no store of the run falls there, and
  the invariant holds either way. The stack page of the first task has this word
  (`LastWordIsLostAfterFork`).
- **The processor caches translations between kernel operations** in the main theorem;
  `CachingRuns.CachingRunsRefineCopying` removes this for faults and forks. Map and unmap store before they
  flush. `paging_make_readonly_recursive` flushes before it stores, and alone it leaves stale exactly the
  writable pages that are cached in between (`ForkCaching.StaleAfterPass`); a fork is saved by its second
  pass, over the child, which flushes the same pages again (`ForkCaching.ForkWithEffect`).

Where the code falls short of its documentation or of its evident intent, the model follows the code:

- `pmm_initialize` takes the sum of all lengths for the end of memory, and leaves its bitmap when usable
  memory ends far enough above a hole that the map does not list (`FrameManagement.InitializeStaysInsideIff`,
  `HoleLeavesTheBitmap`).
- `pmm_release_pages` compares a byte address with a frame number (`kernel/src/memory/pmm.c:97`). Safety
  survives; completeness of the search does not, and the exact condition is proved.
- `malloc` breaks the chunk chain on an exact fit, and `mfree` steps back by the size of the freed block
  instead of `size_prev` (`kernel/src/libk/alloc.c:14-15`), so a correct back link is not enough: the step
  may lead into a payload, or below the heap, where it faults (`Heaps.LargeSecondBlockCannotBeFreed`). Only
  the start of an append is checked against the end of the heap (`kernel/src/libk/alloc.c:86`), beyond
  which lies the page that copy-on-write maps and unmaps (`HeapPages.CowKeepsTheHeapIff`).
- The comment in `kernel/src/memory/cow.h:10` promises failure for pages that were read-only to begin
  with; the code makes every present page writable.
- Task ids are unique for the first 256 tasks only (`Waiting.IdsAreDistinctIff`).
- `read_blocks` does not shrink its last transfer; `stou` does not read the letters that `utos` writes.

## Model

| member | source | states |
|---|---|---|
| Refinement.CopyOnWriteRefinesCopying | kernel/src/syscall/fork.c:14-35 | For every run of ticks, forks, loads, stores and translation caching from a state in the invariant, in which no store meets a read-only page at the last word of the user half, 0x7ffffffffff8, the kernel's outputs are those of the machine that copies all memory at fork, the final states correspond, and the invariant holds again |
| Refinement.RunsAgreeIffStoresAreSeen | kernel/src/interrupts/interrupts.c:57-68 | Without this condition the run still keeps the invariant, and its outputs are those of the ideal machine if and only if the condition holds |
| Refinement.UserRangeIsSeen | kernel/src/memory/addrutil.c:46-49 | The condition holds if no store goes to that word, the only one of the user half that ptr_is_user refuses |
| Refinement.StepRefines | kernel/src/memory/cow.c:14-42 | One event on the shared, lazily copied memory that is no such store keeps the invariant and corresponds to the same event on private memories, with the same output |
| Refinement.UnseenStep | kernel/src/interrupts/interrupts.c:60-68 | Such a store faults where the ideal machine performs it, and keeps the invariant |
| Refinement.LastWordIsLostAfterFork | kernel/src/memory/addrutil.c:46-49 | Such runs exist: when a task whose stack page 0x7ffffffff000 is mapped forks and then stores to the last word of that page, the kernel halts on a fault where the ideal machine stores |
| CachingRuns.CachingRunsRefineCopying | kernel/src/memory/cow.c:14-42 | The same with a processor that caches and drops any translations before every word of the copy and between any two steps of a fault, and between every flush and store of a fork: over every run the invariant is kept, and the outputs are those of the ideal machine if and only if no store meets a read-only page at 0x7ffffffffff8 |
| CachingRuns.StepWithRefines | kernel/src/interrupts/interrupts.c:57-68 | One event with any such caching keeps the invariant and gives the output of the ideal machine exactly when it is no such store |
| Refinement.StoreStep | kernel/src/interrupts/interrupts.c:57-68 | A user store is seen by the running task alone, whether or not it faults first; it faults where the ideal machine stores exactly for a read-only page at 0x7ffffffffff8 |
| Refinement.LoadStep | kernel/src/interrupts/interrupts.c:57-68 | A user load returns the word of the task's own memory, or both machines fault |
| Refinement.ForkStep | kernel/src/syscall/fork.c:14-35 | After a fork the child's memory equals the parent's, no other task's memory changes, and the child stands next in the ring with the parent's context and rax zero |
| Refinement.TickStep | kernel/src/task/sched.c:16-32 | A tick switches address space and context together, exactly when the ideal scheduler does |
| Refinement.AccessEffect | kernel/src/interrupts/interrupts.c:57-68 | A faulting access is resolved by at most one copy-on-write and then has its rights; it succeeds exactly on mapped user pages, unless a write meets a read-only page beyond ptr_is_user; no memory of any task changes |
| Refinement.AllowedMeans | kernel/src/memory/paging.c:82-101 | The rights that the processor checks on every level, or takes from its cache, are those of the leaf entry, because the interior entries of user tables admit everything and the kernel half admits nothing |
| Safety.ReachableStatesAreSafe | kernel/src/memory/paging.c:77-232 | In every reachable state: a writable user frame is mapped by one task at one page, user tables are shared by no two walks, a mapped user frame is no table, tables and mapped frames are locked in the bitmap, every task sees the kernel half as the kernel does, and no cached translation is stale |
| Safety.InvIsSafe | kernel/src/memory/paging.c:148-198 | The same for any state in the invariant, without mention of the roles of frames |
| KernelHalf.RunsKeepTheDirectMap | kernel/src/memory/paging.c:25-69 | In every reachable state every page of the kernel half but the scratch page is as at the start: the direct map leads to every frame that it led to, the kernel's image to the frames that it led to, writable and for the kernel alone, and no page of the last 512 GiB is mapped that was not |
| KernelHalf.StepKeepsKernelHalf | kernel/src/memory/cow.c:23-39 | No event changes a kernel translation other than that of the scratch page |
| Safety.MapKeepsTlb | kernel/src/memory/paging.c:101-102 | After paging_map in any address space no cached translation is stale |
| Safety.UnmapKeepsTlb | kernel/src/memory/paging.c:109-123 | After paging_unmap no cached translation is stale, although it flushes nothing when a table is missing |
| Safety.ProtectKeepsTlb | kernel/src/memory/paging.c:210-232 | After paging_make_readonly no cached translation is stale, if the processor caches nothing during the pass |
| Safety.CowKeepsTlb | kernel/src/memory/cow.c:14-42 | After a copy-on-write fault no cached translation is stale, if the processor caches nothing during the fault |
| FaultCaching.CowWithEffect | kernel/src/memory/cow.c:14-42 | Whatever the processor caches and drops between the steps of the fault, between a store and its flush, and before every word of the copy, the fault has the same effect on memory and allocator and leaves no stale translation |
| FaultCaching.MapWithEffect | kernel/src/memory/paging.c:101-102 | The same for one map, because the store comes before the flush |
| FaultCaching.UnmapWithEffect | kernel/src/memory/paging.c:109-123 | The same for one unmap, whether it finds the page's tables and flushes or returns early |
| FaultCaching.CopyWithEffect | kernel/src/memory/cow.c:36 | memcpy goes where the tables say, whatever is cached before each word |
| Safety.RefillBeforeStoreIsStale | kernel/src/memory/paging.c:215-219 | If the processor caches a page between the flush and the store, the cache is stale afterwards exactly when the page is present and was writable |
| ForkCaching.StaleAfterPass | kernel/src/memory/paging.c:210-232 | One call of paging_make_readonly, with any caching and dropping between every flush and the store after it, stores what it stores without; afterwards a page of the running task is stale only if it was present and writable and was cached between its own flush and store, and it is if it is not dropped later |
| ForkCaching.ForkWithEffect | kernel/src/syscall/fork.c:25-27 | A whole fork, with any caching and dropping in both passes, has the effect that it has without and leaves no stale translation, because the pass over the child flushes what the pass over the parent left stale |
| KernelCode.Kernel.Execute | kernel/src/interrupts/interrupts.c:57-68 | The code of scheduler, fork, fault handler and paging, run on any sequence of events, outputs what the ideal machine outputs if and only if no such store occurs, and then ends in a corresponding state |
| KernelCode.Kernel.Perform | kernel/src/interrupts/interrupts.c:57-68 | Event by event the code does what the model does |
| KernelCode.Kernel.constructor | kernel/src/task/sched.c:7-14 | sched_run activates the tables of the initial task and empties the cache, sets its deadline 1000000 microseconds ahead, and makes it the only task of the ring; the next id is 1 |
| KernelCode.Kernel.Tick | kernel/src/task/sched.c:16-32 | The code of the timer tick performs the tick of the model; the pointers still form one circle |
| KernelCode.Kernel.Rotate | kernel/src/task/sched.c:20-29 | The context goes into the interrupted task and the next task on the circle becomes the running one |
| KernelCode.Kernel.SwitchTo | kernel/src/task/task.S:10-44 | CR3 becomes the task's table, the cache is emptied, and iretq gets the saved context with interrupts enabled |
| KernelCode.Kernel.SyscallFork | kernel/src/syscall/fork.c:14-35 | The code of fork performs the fork of the model: tables copied and protected, a fresh task inserted after the running one, and 2 returned |
| KernelCode.Kernel.InsertAfterCurrent | kernel/src/syscall/fork.c:29-30 | Two pointer stores put a task behind the running one and leave one circle through all tasks |
| KernelCode.Kernel.PageFault | kernel/src/interrupts/interrupts.c:57-68 | A fault at a user address is handled exactly when copy-on-write is; otherwise the kernel halts |
| KernelCode.Kernel.UserStore | kernel/src/interrupts/interrupts.c:57-68 | A store with its fault and retry, through cached or walked translations, performs the store of the model |
| KernelCode.Kernel.UserLoad | kernel/src/interrupts/interrupts.c:57-68 | The same for a load |
| CopyOnWrite.CowEffect | kernel/src/memory/cow.c:14-42 | One fault leaves the page on a fresh frame with the old 512 words and, as its entry, that frame with the low byte of the old entry and write access; every other translation and every other frame's contents are unchanged, the scratch page 0xffff810200000000 is unmapped, and 1 frame plus the missing scratch tables are taken |
| CopyOnWrite.CopyWordsEffect | kernel/src/memory/cow.c:36 | memcpy through the active translations copies every word from the old frame to the new one and writes nothing else |
| CopyOnWrite.RequestPageEffect | kernel/src/memory/vmm.c:9-29 | Demand mapping backs an absent page by a fresh zero-filled frame and changes no other translation |
| CopyOnWrite.WalkIsClear | kernel/src/memory/cow.c:23-26 | No huge page lies on the way to a user page or to the scratch page, and at most 2 tables are missing for the latter |
| CopyOnWrite.CowFlagsKeepTheRest | kernel/src/memory/cow.c:32-33 | The flags of the new page are the low byte of the old entry with write access added |
| CopyOnWrite.MappedIsData | kernel/src/memory/paging.c:77-107 | A page mapped in a lower half leads to a data frame in use |
| Forking.ForkEffect | kernel/src/syscall/fork.c:18-27 | Parent and child translate every user page alike, onto the old frames, without write access; all else is unchanged, and exactly 1 + the parent's lower-half tables are taken |
| Forking.ForkKeepsExclusive | kernel/src/syscall/fork.c:18-27 | After a fork a frame mapped writable is still mapped once |
| Forking.CowKeepsExclusive | kernel/src/memory/cow.c:28-33 | After a copy-on-write fault a frame mapped writable is still mapped once |
| PageTables.MapEffect | kernel/src/memory/paging.c:77-107 | paging_map refines an update of the flat map: the page's walk gives the new entry, every other page of every address space keeps its entry, and exactly the missing tables are allocated |
| PageTables.MapRootEffect | kernel/src/memory/paging.c:77-107 | The same over whole address spaces: a kernel page changes in all of them, a user page in one |
| PageTables.Missing | kernel/src/memory/paging.c:82-98 | paging_map allocates at most 3 tables |
| PageTables.UnmapEffect | kernel/src/memory/paging.c:109-128 | paging_unmap sets the entry of an existing path to zero, keeps every other page of every address space, and takes no frame |
| PageTables.KernelHalfShared | kernel/src/memory/paging.c:25-33 | All address spaces agree on every page of the kernel half |
| PageTables.TableEntry | kernel/src/memory/paging.c:88-97 | The entry of a created table leads to it, and its flags are present, writable and user for user pages, and present alone for kernel pages |
| PageTables.PresentIsMapped | kernel/src/memory/paging.c:130-146 | A page with a present entry misses no table |
| PageTables.GetIsTheWalk | kernel/src/memory/paging.c:130-146 | What is read for a page is the word at the end of an explicit four-level walk: nine bits of the page number for each index, bit 0 of an entry for presence, bit 7 for a huge page, and the bits from 12 on for the next table |
| PageTables.RightsAre | kernel/src/memory/paging.h:31-36 | A page is present and writable, for the user or for the kernel alone, exactly if the low three bits of its entry are 7 or 3 |
| PageTableCopy.CopySpaceEffect | kernel/src/memory/paging.c:163-198 | The copy translates every address as the original does, with tables of its own; the original and all other spaces are unchanged; it takes exactly 1 + the number of lower-half tables |
| PageTableCopy.CopyTableEffect | kernel/src/memory/paging.c:176-198 | The recursive copy of a table at any level, for any prefix |
| PageTableCopy.CopySlotsEffect | kernel/src/memory/paging.c:185-197 | The loop over the slots of an interior table, from any slot on |
| PageTableProtect.ReadonlyTableEffect | kernel/src/memory/paging.c:210-232 | Below a table, every leaf entry loses the write bit and nothing else, no other table changes, and no present page stays cached |
| PageTableProtect.ClearWritableBits | kernel/src/memory/paging.c:218 | Clearing the write bit keeps frame, presence, user access and size bit |
| Forking.ProtectSpace | kernel/src/memory/paging.c:200-208 | The same for a whole address space; all others keep their entries |
| DirtyFrames.CopyTranslatesIffNothingStray | kernel/src/memory/paging.c:163-198 | Whatever free frames contain, frames in use are kept and every page of the copied space translates as in the parent if and only if no stale word in an absent slot of a copied table leads to a present entry; no such word does if the frames taken held no present word |
| StaleFrames.CleanAheadCopiesFaithfully | kernel/src/memory/paging.c:163-198 | The copy translates as the parent if, before the call, the first 1 + n free frames from the hint on hold no present word, for the n tables of the parent's lower half, whatever all other free frames hold |
| CopyImages.CopySpaceIs | kernel/src/memory/paging.c:163-198 | On any memory, paging_copy gives exactly the memory After(s, r), which is computed from the state before the call alone: table by table in the order of the recursion, each in the frame that the allocator hands out after those before it, with links, copied leaves, and stale words in absent slots; nothing but memory and the allocator changes |
| CopyImages.CopyTranslatesIffBefore | kernel/src/memory/paging.c:163-198 | The exact condition on the state before the call: the copy translates every page as the parent does if and only if, in that memory, no stale word in an absent slot of a copied table leads to a present entry |
| CopyImages.CopyTableWords | kernel/src/memory/paging.c:176-198 | Every word of memory after the recursive copy of a table at any level, on any memory |
| CopyImages.NextIsNth | kernel/src/memory/pmm.c:71-91 | The request after k others takes the free frame with exactly k free ones before it from the hint on |
| StaleFrames.CopySpaceTakes | kernel/src/memory/paging.c:163-198 | Whatever free frames contain, paging_copy takes exactly 1 + n frames in the order of n + 1 single requests, and fails if and only if fewer are available |
| StaleFrames.CopyTableTakes | kernel/src/memory/paging.c:176-198 | The same for the recursive copy of a table at any level |
| StaleFrames.AdvanceTakes | kernel/src/memory/pmm.c:71-91 | The frames that k single requests take are among the first k free ones from the hint on |
| StaleFrames.StaleFramesAliasAPage | kernel/src/memory/paging.c:185-197 | In every machine whose free frames hold the parent's own level-2 entry in a slot where the parent has none, the copy maps a page there that the parent does not map, onto the frame of another page |
| StaleMachine.CopyOfWornAliasesAPage | kernel/src/memory/paging.c:191-196 | There is such a machine, well-formed but for the contents of its four free frames: the parent has one page and nothing at 1 GiB, and the copy has this page, writable and on the same frame, at 1 GiB too |
| DirtyFrames.CopyTablePath | kernel/src/memory/paging.c:176-198 | The walk of any page from the copy goes through fresh tables side by side with the walk from the source to the same leaf entry; where the source has no table it meets the word that the frame held before |
| DirtyFrames.CopyIsFaithfulIffFrameWasClean | kernel/src/memory/paging.c:185-197 | One copied table has entries exactly where the source has them if and only if its frame held no present word in the other slots |
| DirtyFrames.StaleWordMapsAPage | kernel/src/memory/paging.c:186-191 | In a table of the second level a stale word that leads to a present entry maps a page that the source does not map |
| DirtyFrames.CopyTableConfined | kernel/src/memory/paging.c:176-198 | Even on dirty frames the copy writes only frames that were free, and its destination |
| Frames.EveryRunKeepsBook | kernel/src/memory/pmm.c:71-143 | Over any run of requests and releases of granted runs: outstanding runs are disjoint and locked, free and held bytes add up to the same amount, and the frames that belong to no one stay the same |
| Frames.ScanEffect | kernel/src/memory/pmm.c:73-88 | The unguarded scan finds the first free run from a position on, never looks past the last bit, and never returns a run past the end of memory, because the extra bit stays locked |
| Frames.RequestEffect | kernel/src/memory/pmm.c:71-91 | A request grants the first free run, locks exactly it, and lowers free_memory by exactly its size |
| Frames.ReleaseEffect | kernel/src/memory/pmm.c:93-100 | A release unlocks exactly the run and raises free_memory by exactly its size |
| Frames.RequestOneEffect | kernel/src/memory/pmm.c:71-91 | A request for one frame fails exactly when nothing is free from the hint on, and otherwise one frame less is available |
| Frames.NextFitComplete | kernel/src/memory/pmm.c:71-91 | Without releases every frame below the hint stays locked, granted frames strictly increase, and a request fails only when no frame is free |
| Frames.ReleaseBreaksNextFit | kernel/src/memory/pmm.c:97-99 | A release keeps every frame below the hint locked if and only if the run is empty, starts at frame 0, or lies at or above the hint |
| Frames.ReleasedFrameIsFoundIff | kernel/src/memory/pmm.c:97-99 | With all memory taken, a released frame is granted again if and only if it is frame 0 or not below the old hint |
| FrameReuse.ReleaseKeepsFreeOkIff | kernel/src/memory/pmm.c:93-100 | A release keeps the frames that can still be handed out clean if and only if the frames that it puts before the hint are: those of the run from the new hint on and, if the hint moves back, the free ones that the search had passed |
| FrameReuse.DriversAreInvisible | kernel/src/device/drive/drive.c:5-22 | Over every run in which drivers take buffers, fill them with any words and give them back, as long as no release moves the hint back, all tables, all translations and the memory of every task are kept, and frames still to be handed out stay clean |
| FrameReuse.DriversKeepTheSystem | kernel/src/device/drive/drive.c:5-22 | Such a run between two events of the kernel keeps the invariant and changes nothing that the processes see |
| FrameReuse.BufferMovesNoHintIff | kernel/src/device/drive/drive.c:17-21 | Taking a buffer, filling it and giving it back moves the hint back if and only if the buffer ends beyond 4096 times its first frame number |
| FrameManagement.FrameManager.constructor | kernel/src/memory/pmm.c:23-69 | The code of the initialization, for every memory map on which it stays inside the bitmap, performs that of the model with a bitmap of total / 0x8000 + 1 bytes in the largest usable region; if usable memory lies below the sum of all lengths the state is valid and exactly the usable frames are free, less the whole pages of the bitmap |
| FrameManagement.InitializeStaysInsideIff | kernel/src/memory/pmm.c:43-64 | The initialization accesses no bit outside of the bitmap if and only if every usable region ends at or below frame 8 * (total / 0x8000 + 1) |
| FrameManagement.InitializeEffect | kernel/src/memory/pmm.c:23-69 | With usable memory below the sum of all lengths, the state is valid, all frames from there on are locked, and the free frames are exactly the usable ones less the whole pages of the bitmap |
| FrameManagement.TotalCountsEach | kernel/src/memory/pmm.c:30-33 | The total is the sum of the lengths of all entries, usable or not |
| FrameManagement.HoleLeavesTheBitmap | kernel/src/memory/pmm.c:52-59 | On a machine with 3 GiB at 0 and 1 GiB at 4 GiB, with nothing listed between, it leaves the bitmap |
| FrameManagement.BitmapTailIsFree | kernel/src/memory/pmm.c:63-64 | Where regions are whole pages, a frame that holds bytes of the bitmap is free afterwards if and only if it is the last one and the length of the bitmap is no multiple of the page size |
| FrameManagement.FrameManager.RequestPages | kernel/src/memory/pmm.c:71-91 | The nested loops over the bitmap perform the request of the model, without reading outside the bitmap |
| FrameManagement.FrameManager.ReleasePages | kernel/src/memory/pmm.c:93-100 | The code performs the release of the model |
| FrameManagement.FrameManager.LockPages | kernel/src/memory/pmm.c:102-122 | The loop locks a run, accounts for the frames that were free, and returns their number |
| FrameManagement.FrameManager.UnlockPages | kernel/src/memory/pmm.c:124-143 | The loop unlocks a run, accounts for the frames that were locked, and returns their number |
| Bitmaps.Bitmap.Set | kernel/src/memory/bitmap.c:8-11 | Exactly one bit of the contents becomes set |
| Bitmaps.Bitmap.Unset | kernel/src/memory/bitmap.c:13-16 | Exactly one bit of the contents becomes clear |
| Bitmaps.Bitmap.IsSet | kernel/src/memory/bitmap.c:3-6 | Bit n of the contents is bit n % 8, from the lowest, of byte n / 8 |
| PagingCode.VaddrToIndex | kernel/src/memory/paging.c:248-258 | The four indices of an address are the base-512 digits of its page number, from bit 12 on |
| PagingCode.FinalVaddr | kernel/src/memory/paging.c:216 | The address flushed for a leaf slot, built down the recursion, is the address of the page that the slot translates |
| PagingCode.Paging.Map | kernel/src/memory/paging.c:77-107 | The loop over levels, on pointers into the direct map, performs the map of the model |
| PagingCode.Paging.Unmap | kernel/src/memory/paging.c:109-128 | The code performs the unmap of the model |
| PagingCode.Paging.Lookup | kernel/src/memory/paging.c:130-146 | The code returns the entry of the flat view |
| PagingCode.Paging.CreateEmptyTable | kernel/src/memory/paging.c:148-161 | A fresh top-level table with an empty lower half and the kernel's upper half |
| PagingCode.Paging.CopyTableSpace | kernel/src/memory/paging.c:163-174 | The code performs the copy of the model and returns the pointer to the new table |
| PagingCode.Paging.CopyRecursive | kernel/src/memory/paging.c:176-198 | The recursive copy in place, for every level |
| PagingCode.Paging.MakeReadonly | kernel/src/memory/paging.c:200-208 | The code performs the write protection of the model |
| PagingCode.Paging.ReadonlyRecursive | kernel/src/memory/paging.c:210-232 | The recursive protection in place, with the flushed addresses computed by shifts |
| PagingCode.Paging.RequestAt | kernel/src/memory/vmm.c:9-29 | The loop maps each absent page of the range as the model does |
| PagingCode.Paging.HandleCow | kernel/src/memory/cow.c:14-42 | The code performs the copy-on-write step of the model, its memcpy going through the translations |
| PagingCode.Paging.ForkTables | kernel/src/syscall/fork.c:18-27 | Copy, then protection of parent and child, as in the model |
| PagingCode.Paging.WriteCr3 | kernel/src/memory/paging.c:234-239 | A store to CR3 activates a table and empties the cache |
| Addresses.OffsetRoundTrip | kernel/src/memory/addrutil.c:6-14 | Going to a direct-map address and back gives the physical address and its frame |
| Addresses.EnsureHigherAdds | kernel/src/memory/addrutil.c:16-19 | The bitwise or with the direct-map base is an addition for every physical address |
| Addresses.PointersUseTheDirectMap | kernel/src/memory/addrutil.c:3-19 | The pointer to a frame lies at the start of the page of the direct map for this frame, page 0x800000000 + f, in canonical form |
| Scheduling.ExactWaiting | kernel/src/task/sched.c:16-32 | A task d hops ahead stays untouched and runs after exactly d switches plus one for each fork meanwhile |
| Scheduling.ResumesWhereInterrupted | kernel/src/task/sched.c:20-30 | A rescheduled task resumes with the registers, rip, rsp and address space it was interrupted with, and with IF set in rflags |
| Scheduling.ChildStartsAsParent | kernel/src/syscall/fork.c:19-32 | A child first runs with the context of its parent's fork call except rax = 0 |
| Scheduling.ResumeIs | kernel/src/task/task.S:10-44 | iretq resumes the saved registers, rip and rsp, with user selectors 0x1b and 0x23, and the saved rflags with bit 9 set |
| Waiting.WaitingInRuns | kernel/src/task/sched.c:16-32 | In every run of the kernel, with loads, stores and faults, a task d hops ahead keeps its context and address space until it runs, after exactly d switches plus one for each fork before the kernel halts |
| Waiting.ContextsInRuns | kernel/src/task/sched.c:20-30 | In every such run an interrupted task is resumed with exactly the context and address space it was interrupted with |
| Waiting.ChildrenInRuns | kernel/src/syscall/fork.c:19-32 | In every such run a child is first resumed with the context of its parent's fork call except rax = 0 |
| Waiting.QuantumInRuns | kernel/src/task/sched.c:16-32 | In every run of the kernel, between two resumed contexts the clock advances by more than 1000000 microseconds, exactly unless the deadline wraps around, and then a tick does switch |
| Waiting.IdsAreDistinctIff | kernel/src/task/task.c:59-62 | Over every run from the first task, the ids count the forks in eight bits, so that the tasks have distinct ids if and only if there were at most 255 forks |
| Scheduling.NoEarlySwitch | kernel/src/task/sched.c:20-29 | After a switch at time t the next tick that switches is the first with a time beyond t + 1000000 microseconds, exactly unless the 64-bit deadline wraps around |
| Boot.InitializeTablesEffect | kernel/src/memory/paging.c:20-75 | From memory not in use, and for a memory map that ends below the heap, every page of the kernel half has exactly its literal entry: 1 GiB pages for the first 4 GiB, pages of their own for the listed frames from there on, the first 2 GiB at 0xffffffff80000000, and 0 elsewhere; the lower half is empty, all 256 upper links are present only, and 257 frames and the tables for memory above 4 GiB are taken |
| DirectMapping.KernelHalfLeads | kernel/src/memory/paging.c:35-69 | Such a kernel half leads, writable and for the kernel alone, to every frame below 4 GiB and in the memory map at the direct map, and from page 0xffffffff80000000 + 4096p to frame p for the first 2 GiB by huge pages, and maps no other page of the last 512 GiB |
| DirectMapping.MapMemoryEffect | kernel/src/memory/paging.c:54-69 | The loops over the memory map map exactly the listed pages from 4 GiB on, each to its own frame, whatever overlaps; they change no page below 4 GiB and no user page, leave the top-level table as it is, and take exactly the missing tables |
| DirectMapping.MapExtentEffect | kernel/src/memory/paging.c:57-68 | The same for one entry, from any page of it on |
| Boot.RequestRangeEffect | kernel/src/memory/vmm.c:9-29 | A range request maps every absent page of the range for the user to read and write, leaves the entries of all other and of already mapped pages, and takes exactly one frame and the missing tables for each page that is absent when its turn comes |
| Boot.MapSegmentsEffect | kernel/src/task/task.c:30-47 | Mapping the segments one after the other maps exactly the pages of all of them beside those that were mapped, for the user to read and write, keeps the invariant and the kernel half, and takes exactly these frames |
| Boot.FirstTaskStarts | kernel/src/task/task.c:14-57 | After initialization the first task's address space satisfies the invariant of all runs; the pages of its segments and the stack page 0x7ffffffff000 are mapped for the user to read and write, no other user page is, the cost is exact, and the kernel half is kept |
| Startup.PagingInitialize | kernel/src/memory/paging.c:20-75 | The code of the setup, its loops over table slots and over the memory map with byte addresses included, performs the setup of the model |
| Startup.SegmentHoldsItsBytes | kernel/src/task/task.c:36-41 | The pages allocated for a segment hold all its bytes, and the last one holds at least one of them |
| Startup.SegmentPageIff | kernel/src/task/task.c:31-41 | The pages of a header of type 1 in the user half are exactly those from the page of its first byte to that of its last, so every byte of the segment lies on one |
| Startup.TaskCreate | kernel/src/task/task.c:14-57 | The code maps the loadable segments and the stack in a copy of the parent and sets up the initial context: cleared registers and flags, the entry point, rsp 0x7ffffffffff0 |
| Startup.Start | kernel/src/start.c:157-160 | From an initialized kernel the scheduler starts with the first task, its literal context and first deadline, in a state that satisfies the invariant of all runs; its user pages are exactly the stack page and those of the headers of type 1, and the kernel half is kept |
| Startup.BootKernel | kernel/src/start.c:94-160 | From the boot loader's memory map, cleared usable memory and enough of it, the frame allocator, the kernel tables, the kernel heap and the first task are set up, and the scheduler starts in a state that satisfies the invariant of all runs: every page of the kernel half but the first of the heap has its literal entry, the user pages are exactly the stack page and those of the headers of type 1, the first task has id 0 and its literal context and deadline, and the heap is tiled, mapped to its end and not beyond, and holds exactly the structure of 169 bytes of the first task |
| Startup.LibkInit | kernel/src/libk/alloc.c:48-64 | The code maps the first page of the heap in the kernel's table and writes the first headers |
| Heaps.MallocEffect | kernel/src/libk/alloc.c:66-115 | malloc keeps the heap tiled by positive-size chunks up to one tail and adds exactly its block, apart from all others, if and only if the chunk exceeds the request by more than a header, or the appended pages leave more than a header; it fails, changing nothing, only for an empty request or when no chunk is large enough and the heap ends beyond 0xffff810200000000 |
| Heaps.MallocLeaves | kernel/src/libk/alloc.c:75-115 | malloc from a roomy chunk, header by header: the first free chunk that holds the block and a header, or else the tail, becomes a used header of n bytes with its old link, followed by a free header with the rest and a link of n; appended pages are as few as hold the block and a header and end in a new tail that links to them; all other headers stay |
| Heaps.Find | kernel/src/libk/alloc.c:76-80 | The search stops at the first free chunk that is large enough, and at the tail if there is none |
| Heaps.GrowthIff | kernel/src/libk/alloc.c:84-101 | While the heap ends at or below 0xffff810200000000, a request that no chunk suits appends whole pages for n + 24 bytes and stays within this limit if and only if n + 24 bytes do, or wrap around when they are aligned |
| HeapPages.CowKeepsTheHeapIff | kernel/src/memory/cow.c:12-39 | A copy-on-write fault leaves every page of the heap mapped if and only if the heap ends at or below 0xffff810200000000; otherwise exactly the page there is lost, which was present and belongs to a chunk of the heap |
| HeapPages.HeapStarts | kernel/src/libk/alloc.c:48-64 | After initialization the first page of the heap is mapped for the kernel alone, writable, at exact cost; no page after it is, the initial heap is tiled, and no other translation and no top-level entry changes |
| HeapPages.MallocKeepsTheHeapMapped | kernel/src/libk/alloc.c:82-101 | malloc with the pages that it requests leaves the heap of the model mapped to its new end, writable and for the kernel alone, and not beyond, changes no task's memory, leaves no stale translation, and takes exactly the frames of the absent pages and missing tables |
| HeapPages.ForkWithMallocEffect | kernel/src/syscall/fork.c:14-35 | A fork with its malloc(169): the processes see what the ideal fork shows, the invariant is kept, the heap stays mapped, exactly the frames of the appended page, the new top level and the copied tables are taken, and the live blocks gain exactly the structure if and only if its chunk was roomy |
| HeapRuns.HeapRunsRefineCopying | kernel/src/syscall/fork.c:14-35 | Over every run whose forks take their structures from the heap, in which the heap stays within its limit and every fork finds a roomy chunk, the invariant is kept, the heap is tiled and mapped at the end and holds one block more for each new task, each of 169 bytes, beside all that it held before, and the outputs are those of the ideal machine if and only if no store meets a read-only page at 0x7ffffffffff8 |
| HeapRuns.StepHeapRefines | kernel/src/syscall/fork.c:14-35 | One event of such a run |
| Heaps.SplitOk | kernel/src/libk/alloc.c:105-112 | Splitting a chunk with room for another header keeps the tiling and changes the live blocks by exactly the new one |
| Heaps.ExtendOk | kernel/src/libk/alloc.c:82-101 | Appending pages makes the tail a chunk of their size and adds a new tail at the new end |
| Heaps.ExactFitBreaksTheHeap | kernel/src/libk/alloc.c:109-112 | A request of 4024 bytes on the initial heap breaks the chain |
| Heaps.InitOk | kernel/src/libk/alloc.c:48-64 | The initial heap is one free chunk of 4048 bytes without link and the tail that links to it, on one page at 0xffff810000000000 |
| Heaps.MfreeEffect | kernel/src/libk/alloc.c:124-146 | Whatever the bytes between headers read as, mfree merges and writes real chunks only, keeps the tiling and removes exactly the freed block if and only if size_prev is zero, or the address one block size before the header lies in the heap and what is read there is marked in use, or that is the header of a free chunk of the same size; a step back below the heap faults |
| Heaps.MfreeLeaves | kernel/src/libk/alloc.c:124-146 | What mfree leaves under this condition, header by header: the freed chunk joins a free chunk of its size before it, if the code steps back, and a free chunk after it; the sizes add up with 24 for each header that goes, the header behind gets the size of the absorbed chunk as its link, and all others stay |
| Heaps.FirstBlockIsJoined | kernel/src/libk/alloc.c:124-146 | malloc(n) from the head of the initial heap and mfree leave one free chunk of 4048 bytes again, and the tail with a link of 4024 - n |
| Heaps.CarefulRunsKeepTheHeap | kernel/src/libk/alloc.c:66-146 | Over every run of mallocs from roomy chunks and mfrees of live blocks under the condition of MfreeEffect the heap stays tiled, its live blocks are exactly those handed out and not given back, and no two overlap |
| Heaps.AccurateBackLinkIsNotEnough | kernel/src/libk/alloc.c:14-15 | With a correct size_prev, mfree can still step back into the payload of a free chunk, and merges and writes what it reads there as a header unless it happens to be marked in use |
| Heaps.LargeSecondBlockCannotBeFreed | kernel/src/libk/alloc.c:129-137 | After malloc(100) and malloc(3800) on the initial heap, mfree of the second block steps back to 3700 bytes below the heap and faults |
| Heaps.LiveApart | kernel/src/libk/alloc.c:24-29 | Live blocks of a tiled heap lie inside it and do not overlap |
| Heaps.KernelHeap.constructor | kernel/src/libk/alloc.c:48-64 | The code sets up the initial heap, with a head of 4048 bytes without link and a tail that links to it |
| Heaps.KernelHeap.Malloc | kernel/src/libk/alloc.c:66-115 | The search loop, the append and the split on headers in place perform the malloc of the model; from a roomy chunk they leave the headers of MallocLeaves, and 0 is returned exactly for an empty request or when nothing suits and the heap has passed its limit |
| Heaps.KernelHeap.Mfree | kernel/src/libk/alloc.c:124-146 | The merges in place perform the mfree of the model, whatever bytes of the heap that are no header read as, and leave the headers of MfreeLeaves under the condition of MfreeEffect |
| Drives.Drive.Read | kernel/src/device/drive/drive.c:5-22 | For every non-empty range and power-of-two block size the destination holds exactly disk[offset .. offset+len), and nothing else changes but the blocks transferred |
| Drives.WindowCovers | kernel/src/device/drive/drive.c:7-13 | The window is the smallest run of blocks that holds the range, and the page count is the smallest that holds the window |
| Drives.Drive.ReadBlocks | kernel/src/pci/nvme.c:274-295 | The transfers tile the requested blocks and write nothing outside of those that they cover |
| Drives.TransferredIs | kernel/src/pci/nvme.c:288-294 | The transfers cover the requested blocks, and no more if and only if there are at most 16 or a multiple of 16; otherwise a multiple of 16 |
| Drives.StaysInBufferIff | kernel/src/device/drive/drive.c:12-16 | For every power-of-two block size the transfers stay inside the pages allocated for the window if and only if it has at most 16 blocks, or a multiple of 16, or the blocks too many take less than a page |
| Drives.SeventeenBlocksOverrun | kernel/src/pci/nvme.c:288-294 | Seventeen blocks of 512 bytes overrun their three pages by one |
| StrUtil.PrintThenParse | kernel/src/libk/strutil.c:17-70 | For every 64-bit number, base from 2 to 16 and padding, parsing the printed text gives the number back if and only if it is zero or no digit is a letter and there is no prefix, in particular for every base up to 10; the length is the larger of padding and digit count |
| StrUtil.DigitCountIsLeast | kernel/src/libk/strutil.c:19-26 | The digit count is the least number of digits that the value fits in |
| StrUtil.Utos | kernel/src/libk/strutil.c:17-45 | The loops write "0x" for base 16, then as many digits as the value needs or the padding asks for, the one at distance k from the end being "0123456789ABCDEF"[i / base^k % base], and the terminator, and nothing beside them |
| StrUtil.Stou | kernel/src/libk/strutil.c:47-70 | The loop computes, from left to right, the value so far times the base plus what each character counts for, modulo 2^64, although the weight wraps around on padding, and 0 if a character counts for the base or more |
| StrUtil.Strlen | kernel/src/libk/strutil.c:7-15 | The length of the terminated string |

## Left out

- Startup.TaskCreate: contents of executables; `task_create` swaps `p_filesz` and `p_memsz` between its memset and its memcpy, so zero-filled bss does not hold; the pages of segments are modelled, their bytes are not. The task structure is a new object; its block is allocated in Startup.BootKernel.
- Startup.BootKernel: framebuffer, descriptor tables, interrupt controllers and the file system, which are initialized between the steps, are left out; for the frames that drivers use then see FrameReuse.DriversAreInvisible.
- Boot.InitializeTablesEffect: entries of the memory map end at 1 TiB or below, where the kernel heap begins, and start at a page boundary if they reach beyond 4 GiB; the same holds for Startup.PagingInitialize.
- PageTables.MapEffect: paths without a huge page. The code follows a huge entry as if it were a table; in address spaces of the modelled layout such entries are only in the direct maps. The same holds for PageTables.MapRootEffect and PageTables.UnmapEffect.
- PageTableCopy.CopySpaceEffect: free frames are zero-filled; without this, CopyImages.CopySpaceIs and CopyImages.CopyTranslatesIffBefore hold.
- `vmm_release_at`: it has no callers, frees n frames but unmaps one page, and ignores sharing. No event of the runs gives frames back, as copy-on-write leaves the old frame allocated; drivers do (FrameReuse).
- FrameManagement.FrameManager.constructor: the bitmap is an array of its own, so that its last partial page, which stays free, is not overwritten; usable regions are page-aligned, and the bitmap fits into the largest of them.
- Refinement.CopyOnWriteRefinesCopying: accesses are whole aligned words of user processes; kernel-mode writes into user pages, instruction fetches and the other page-fault causes are not modelled.
- Safety.ProtectKeepsTlb: nothing is cached between the flush and the store of a slot; ForkCaching.StaleAfterPass says exactly what is stale otherwise, and ForkCaching.ForkWithEffect that a fork is not affected.
- Accessed and dirty bits, global pages, process-context identifiers and paging-structure caches of the processor.
- PagingCode.Paging.CopyRecursive: pointers to tables are addresses in the direct map, which the code of the model resolves by arithmetic; that the direct map leads there is KernelHalf.RunsKeepTheDirectMap.
- Supervisor accesses by virtual address in copy-on-write ignore the write bit, as with CR0.WP clear.
- Refinement.ForkStep: the malloc of the task structure is left to HeapPages.ForkWithMallocEffect, which combines the two.
- KernelCode.Kernel.SyscallFork: the task structure is a new object; that the code takes it from the kernel heap is in HeapPages.ForkWithMallocEffect; the child's deadline, which the code leaves uninitialized, is an arbitrary value.
- KernelCode.Kernel.Tick: interrupts that arrive while the kernel runs, and the time that handlers take, are not modelled.
- Heaps.MallocEffect: the page mappings behind an append are represented by the end of the heap; HeapPages.MallocKeepsTheHeapMapped adds them; `alignment`, which the code ignores, and `zmalloc` are left out.
- Heaps.MfreeEffect: addresses below the heap are taken as unmapped, as they are unless the machine has physical memory just below 1 TiB; what becomes of bytes that are no header once they are written as one is not modelled; nor is freeing an address that `malloc` did not return.
- Heaps.KernelHeap.Mfree: only for calls in which no bytes but headers are written.
- Drives.Drive.Read: the frames of the block buffer are given as an address range; taking and giving them back is in FrameReuse.DriversAreInvisible and FrameReuse.BufferMovesNoHintIff.
- FrameReuse.DriversAreInvisible: buffers are given back whole; the partition code gives back less than it took, which FrameReuse.ReleaseKeepsFreeOkIff covers as a single release.
- Drives.Drive.ReadBlocks: a transfer is one operation that fills whole blocks; queues, doorbells, PRP entries, completion phases and blocks past the end of the disk are device behaviour.
- StrUtil.Utos: bases outside 2 to 16, for which the digit table or the loop does not work.
- `bitmap_flip`, `addr_align_down`, `zpalloc` and the other string functions: they would only add easy members.
- Terminal, framebuffer, printf, descriptor tables, interrupt controllers, timers, ACPI, PCI enumeration, partition tables and the file-system stub: hardware plumbing or user interface.
