# Verification of the Rotary kernel's core

A Dafny model of the memory managers, the scheduler and the text routines of the Rotary kernel, with proofs about it.

- `Words.dfy`: 32- and 64-bit unsigned words, wrap-around addition and subtraction, the bitwise operators.
- `Pmm.dfy`, `Paging.dfy`, `PageRanges.dfy`, `Vmm.dfy`, `TableAccess.dfy`: physical frames, two-level page tables and
  the pages mapped through them. The code never defines the translation it implements; `Paging.Walk` does, after section
  4.3 of the Intel SDM, Vol. 3A, and everything about paging is stated against it. A page-table frame is 1024 entries at
  a physical frame number. All but `TableAccess` take a table's physical address to reach the table; `TableAccess` says
  when it does.
- `HeapBlocks.dfy`, `HeapMemory.dfy`, `Unaligned.dfy`, `HeapOps.dfy`, `HeapFaults.dfy`, `HeapRelease.dfy`,
  `HeapRuns.dfy`, `HeapLinks.dfy`, `HeapLosses.dfy`, `HeapCalls.dfy`, `HeapHistory.dfy`, `HeapPlace.dfy`,
  `KernelHeap.dfy`: the kernel heap, from the sequence of blocks it stands for (`HeapBlocks`, `HeapRuns`) down to the
  words written (`HeapCalls`, `KernelHeap`). `HeapMemory.Heap` is the representation: headers and trailers agree, blocks
  tile the heap exactly, and the `next_free_block` chain from the heap start is all the free blocks in address order.
  `HeapLinks` follows the back links of that chain; `HeapHistory` carries the runs of `HeapRuns` to memory, with owners
  writing to their payloads between the calls; `HeapPlace` says what `vmm_init` leaves below the heap. Memory is one
  32-bit word for each 4-byte aligned address.
- `TaskLayout.dfy`, `Scheduler.dfy`, `TaskSwitch.dfy`, `Isolation.dfy`, `NewTasks.dfy`, `Multitasking.dfy`,
  `Stacks.dfy`: the task table and round-robin scheduler, the context switch as a machine over registers, stacks and
  task structures, the two together, and the table together with the heap that its stacks come from. The table gives
  each of its slots out once, and a run has one stack for each slot; the stack of a task that has been purged may be
  given to a later one.
- `Division.dfy`, `Numerals.dfy`, `Format.dfy`: 64-bit division, number printing and reading, and `sprintf`.

Objects the code updates in place are classes (`FrameAllocator`, `PageMemory`, `VirtualMemory`, `KernelHeap`,
`TaskTable`, `Processor`) whose methods are proved to compute functions of the old state; what the design promises is
then proved about those functions, over single calls and over runs.

`printk` writes nothing here. CPU support for 4 MB pages, which addresses the heap can read, linker symbols, the result
of `kmalloc` in `task_create` and the directory given to a user task are parameters.

## Where the code does not do what it is for

Each of these is kept as the code has it, with the exact condition under which the intended property holds.

- A split of a free block with 24 bytes of slack or less, or of a request rounded up to zero, leaves no heap:
  `HeapFaults.SplitFit`. From the fresh heap the requests that lose it are those of `HeapLosses.FirstRequest`.
- An exact fit leaves a heap exactly when the block's back link names its true predecessor in the free list:
  `HeapFaults.ExactFit`. With all links right every one does, and splits keep them right: `HeapLinks.RightLinksServe`,
  `HeapLinks.SplitKeepsLinks`. An exact fit of the first block need not: `HeapLinks.TakeKeepsLinks`. A release never
  refreshes the successor's back link. One that leaves a heap keeps the links right exactly when it only joins the block
  before it, which needs the repair below, or no free block follows: `HeapLinks.ReleaseKeepsLinks`.
  `HeapLosses.ExactFitFromInit` is a run from `heap_init` that loses the heap so.
- A release whose left neighbour alone is free writes the trailer of the following block:
  `HeapRelease.CoalesceLeftOnly`. The repaired form, selected by the parameter `repaired`, aims lines 118-119 at the
  merged block's own trailer. Every request served by a split and released at once is such a release: as written it
  always loses the heap, repaired it is undone, `HeapLosses.SplitThenFree`, `HeapLosses.FirstRelease`.
- The release of the first block looks at whatever lies below the heap. If that does not look like a free block, a heap
  is left exactly when the block after the first one is free; if it does, clear of the heap, memory outside the heap is
  written: `HeapRelease.ReleaseFirst`. Wherever it lies off the first header, the code as written then leaves no heap,
  but for one value of the word taken for a size: `HeapRelease.MergeLosesHeap`. After `vmm_init` it is the kernel's
  page directory, whose entry 1022 is taken for a block's size, and every release of the first block faults:
  `HeapPlace.FirstReleaseAfterBoot`. A first request for the whole heap hands out the first block, and its release loses
  the heap in either form: `HeapLosses.WholeHeap`.
- `paging_map` uses the physical address of a page table as a pointer while paging is on. That reaches the table exactly
  when the loaded directory maps the address to itself, `TableAccess.ReachedThroughout`. In no state between calls of
  `vmm_alloc_pages` does it: `TableAccess.NeverReached`, `TableAccess.RunNeverReaches`. The code faults instead, from
  the first mapping on (`TableAccess.FirstMapFaults`), or, once a user page is mapped at the table's address, overwrites
  that page's data frame (`TableAccess.Astray`). The translation asked for is then there exactly when it was before, or
  when the uncleared frame of a new table holds it by chance: `TableAccess.PresentExactly`,
  `TableAccess.MissingExactly`. While a user task runs its directory is the one loaded, and every mapping faults:
  `TableAccess.FaultsUnderUserDirectory`. What is proved of runs in `PageRanges` and `Vmm` assumes that a table is
  edited wherever it lies in physical memory.
- `kmalloc` fails with 0 and `task_create` tests for -1: `Scheduler.FailedStackUnnoticed`. A task created when the table
  is full takes the slot after its end: `Scheduler.GuardStaysEmpty`, `Scheduler.TableFills`. Idle may exit, and then the
  search for a task does not end: `Scheduler.IdleExitHangs`. A task that exits is purged while it runs on its own
  stack: `Stacks.OwnStackGivenBack`.
- `pmm_alloc_frame` does not test for exhaustion, and its callers test for an address it returns only when the managed
  region starts at the second frame of memory: `Pmm.AllocExhausted`, `Vmm.ExhaustionUnnoticed`.
- `paging_map` does not write the page-size bit of an entry it fills, and takes a 4 MB page for a page table:
  `PageRanges.FreshTableNeedsClearSizeBit`, `PageRanges.PresentEntryNeedsTable`. `task_create` does not clear a user
  task's directory first: `Vmm.UserDirectoryMapsWhereClear`.
- `strlen` gives up after 512 characters, and a longer `%s` argument is then padded wrongly: `Format.FieldWidth`. `atoi`
  overflows on the way to the largest 48 values of an `int`: `Numerals.ReadableNumerals`.

## Model

| member | source | states |
|---|---|---|
| `Pmm.AllocTakesLowest` | kernel/pmm.c:73-94 | a successful allocation marks and returns the lowest frame not in use, and changes no other frame; the counter rises by one |
| `Pmm.AllocExhausted` | kernel/pmm.c:83-94 | with no free frame in the scanned words nothing changes, yet the address below the region is returned; it is null exactly when the region starts at the second frame |
| `Pmm.CodeComputesAllocated` | kernel/pmm.c:91 | the 32-bit product and sum yield that address, on exhaustion too |
| `Pmm.DeallocOutside` | kernel/pmm.c:98-102 | freeing an address outside the managed frames changes nothing, also below the region where the subtraction wraps |
| `Pmm.AllocThenDealloc` | kernel/pmm.c:88-102 | freeing what was just allocated restores the state |
| `Pmm.DeallocReleases` | kernel/pmm.c:58-69 | freeing any address within a managed frame takes that frame, and no other, out of those in use, and one off the counter, even if it was free |
| `Pmm.DeallocKeepsCount` | kernel/pmm.c:58-69 | the used counter stays the number of used frames exactly when the freed frame was in use or is not managed |
| `Pmm.MarkUsedKeepsCount` | kernel/pmm.c:40-54 | the counter survives a mark exactly when the marked frame was free or is not managed |
| `Pmm.MarkUsedMarks` | kernel/pmm.c:40-54 | a mark puts that frame, and no other, among those in use, if it is managed, and adds one to the counter |
| `Pmm.RunKeepsConsistent` | kernel/pmm.c:40-102 | over every run of allocations and releases of held frames the counter is the cardinality of the set of used frames, and no frame past the last whole word is taken |
| `Pmm.RunBalances` | kernel/pmm.c:73-102 | over every such run a frame is in use exactly when by the addresses handed out and given back it was taken and not given back since, or held from the start |
| `Pmm.Align4KIsMasking` | kernel/pmm.c:106-109 | the model's rounding is the code's masking, in 32-bit arithmetic |
| `Pmm.Align4KRoundsUp` | kernel/pmm.c:106-109 | the least multiple of 4096 not below the address, except in the last page, which wraps to 0 |
| `Pmm.SetBitMarks` | kernel/pmm.c:49-52 | or-ing the mask in marks that frame of the bitmap and no other |
| `Pmm.ClearBitUnmarks` | kernel/pmm.c:65-67 | and-ing its complement unmarks that frame and no other |
| `Pmm.FrameAllocator.constructor` | kernel/pmm.c:8-12 | the zeroed bitmap stands for no frame in use |
| `Pmm.FrameAllocator.SetMemoryRange` | kernel/pmm.c:31-36 | the new region's base and length; the frames in use are those the bitmap has marked, none when it is clear |
| `Pmm.FrameAllocator.SetFrameUsed` | kernel/pmm.c:40-54 | adds the frame to the set the bitmap denotes, or does nothing beyond the last frame |
| `Pmm.FrameAllocator.SetFrameFree` | kernel/pmm.c:58-69 | removes it from the set |
| `Pmm.FrameAllocator.GetFirstFreeFrame` | kernel/pmm.c:73-84 | the nested scan finds the lowest frame not in the set within the whole words, or the failure value |
| `Pmm.FrameAllocator.AllocFrame` | kernel/pmm.c:88-94 | the abstract allocation and its address |
| `Pmm.FrameAllocator.DeallocFrame` | kernel/pmm.c:98-102 | the abstract release |
| `Paging.IndexMacros` | include/rotary/paging.h:35-36 | the shift-and-mask macros are the directory and table index of the page |
| `Paging.MapPageWalk` | arch/x86/kernel/paging.c:67-89 | one turn of the loop updates the translation of that page and of no other page, with or without a table present |
| `Paging.MapPageDirectory` | arch/x86/kernel/paging.c:74-83 | the directory gains at most the one entry, and every other bit of it stays |
| `Paging.MapPageWellFormed` | arch/x86/kernel/paging.c:67-89 | the directory and its tables stay pairwise distinct held frames |
| `Paging.MapPageFrame` | arch/x86/kernel/paging.c:74-89 | no held frame but the directory and its tables is written |
| `Paging.InitTableEntries` | arch/x86/kernel/paging.c:24-44 | initialising makes all entries of the one frame absent, writable and kernel-only; no other bit of any entry of any frame changes |
| `Paging.MapPageEntries` | arch/x86/kernel/paging.c:67-89 | all that one turn writes, bit by bit: the page's entry; with no table, the new one's entries and its directory entry; no other bit of any frame, and one frame taken or none |
| `PageRanges.MapPagesWalk` | arch/x86/kernel/paging.c:51-96 | `paging_map` is a map update: page(va)+i goes to page(pa)+i for every i < size/4096, kernel-only, and every other page of the address space resolves as before |
| `PageRanges.MapTranslates` | arch/x86/kernel/paging.c:51-96 | the same on addresses: offset and all |
| `PageRanges.MapPagesDirectory` | arch/x86/kernel/paging.c:67-94 | tables appear exactly for the directory entries of the range that had none, one frame each |
| `PageRanges.MapPagesKeeps` | arch/x86/kernel/paging.c:67-94 | over a range no bit changes anywhere that `paging_map` does not write, and frames held for other things keep their contents |
| `PageRanges.MapPagesEntries` | arch/x86/kernel/paging.c:80-94 | in a table that was there the entries of the range are rewritten, field by field, and no others |
| `PageRanges.MapPagesSplit` | arch/x86/kernel/paging.c:67-94 | in any state, large pages and exhaustion included, a range is mapped like its two parts one after the other |
| `PageRanges.FreshTableNeedsClearSizeBit` | arch/x86/kernel/paging.c:74-79 | filling an absent entry is a map update exactly when the entry's page-size bit was clear |
| `PageRanges.MapOverLargePageIsLost` | arch/x86/kernel/paging.c:80-89 | over a present 4 MB page that does not start at the directory or one of its tables no translation changes, and the entry lands in that page's first frame |
| `PageRanges.PresentEntryNeedsTable` | arch/x86/kernel/paging.c:80-89 | with a present entry (a 4 MB page likewise) mapping is a map update exactly when the entry has a table or already resolves the page as asked |
| `Paging.PageMemory.InitDirectory` | arch/x86/kernel/paging.c:17-30 | three bits of all 1024 entries are reset, or failure for an unaligned address |
| `Paging.PageMemory.InitPageTable` | arch/x86/kernel/paging.c:34-47 | likewise for a table |
| `Paging.PageMemory.MakeTable` | arch/x86/kernel/paging.c:75-79 | a fresh frame with no entry present, and the directory entry that points to it |
| `Paging.PageMemory.MapOne` | arch/x86/kernel/paging.c:68-89 | the loop body computes one step of the abstract mapping |
| `Paging.PageMemory.Map` | arch/x86/kernel/paging.c:51-96 | the loop computes the abstract mapping of the range; an unaligned size fails and changes nothing |
| `TableAccess.ReachedThroughout` | arch/x86/kernel/paging.c:76-89 | each word of a table is reached at its physical address exactly when the loaded directory maps the table's page to itself |
| `TableAccess.MapsWhereReached` | arch/x86/kernel/paging.c:74-89 | with its accesses made through the loaded directory, a turn does the abstract mapping if the table is reached, and faults if nothing is mapped there; the third case is `Astray` |
| `TableAccess.TableBelow` | arch/x86/kernel/paging.c:74-82 | with managed memory below 3 GB the table found or taken for a user page lies there too, as the rows below take it to |
| `TableAccess.NeverReached` | arch/x86/kernel/paging.c:74-89 | in every sound state a request for a user page finds its table, old or new, unreached at its physical address |
| `TableAccess.RunNeverReaches` | kernel/vmm.c:63-91 | so after every run of requests, whatever is asked for next |
| `TableAccess.Astray` | arch/x86/kernel/paging.c:74-89 | a turn then faults where nothing is mapped at that address, and otherwise clears and writes the data frame of the user page mapped there, and no other |
| `TableAccess.PresentExactly` | arch/x86/kernel/paging.c:80-89 | with a table present a turn returns with the map update made exactly when something answers and the page was mapped as asked before |
| `TableAccess.MissingExactly` | arch/x86/kernel/paging.c:74-89 | with none, exactly when something answers and the new table's frame, never cleared, holds just the entry asked for |
| `TableAccess.UserDirectoryHasNone` | kernel/task.c:72-79 | the directory `task_create` makes for a user task maps no user page, whatever the frame held before |
| `TableAccess.FaultsUnderUserDirectory` | arch/x86/kernel/paging.c:74-89 | with such a directory loaded no table below 3 GB is reached, and every mapping faults |
| `TableAccess.FirstMapFaults` | arch/x86/kernel/paging.c:74-89 | over the directory `vmm_init` loads no table is reached and every first mapping faults |
| `TableAccess.FirstAllocFaults` | kernel/vmm.c:78-84 | so the first turn of `vmm_alloc_pages` faults, whatever page is asked for |
| `Vmm.DirectMap` | include/rotary/pmm.h:23-24 | with the kernel half set up every address from 0xC0000000 translates to `VIR_TO_PHY` of it |
| `Vmm.Conversions` | include/rotary/pmm.h:23-24 | `PHY_TO_VIR` and `VIR_TO_PHY` undo each other, 3 GB apart, in 32-bit arithmetic |
| `Vmm.MapKernelMaps` | kernel/vmm.c:95-112 | `vmm_map_kernel` sets up the kernel half with 4 MB pages, does nothing without them, and leaves the user half |
| `Vmm.MapKernelEntries` | kernel/vmm.c:99-106 | which bits it writes: five fields of entries 768 to 1023 of the one directory, and no other bit of any frame |
| `Vmm.PageCountCovers` | kernel/vmm.c:74 | the page count covers the size unless rounding wraps, and then it is zero |
| `Vmm.AllocPagesSound` | kernel/vmm.c:63-91 | a call in the domain costs one frame for each page and each directory entry that became present, and keeps user pages on pairwise distinct frames, none of them a table or the directory |
| `Vmm.NoNullOnTheWay` | kernel/vmm.c:79-83 | no turn of such a call meets the null address, so it returns 0 |
| `Vmm.RunSound` | kernel/vmm.c:63-91 | over every run of such calls the same holds, no two directory entries share a table, and the direct map still holds |
| `Vmm.AllocPagesMap` | kernel/vmm.c:74-86 | after a call in the domain every page asked for resolves to a frame that was free, with the rights of its directory entry and kernel-only, and every other page of the address space resolves as before |
| `Vmm.AllocPagesKeep` | kernel/vmm.c:74-86 | the contents of user pages stay as they were |
| `Vmm.RunMaps` | kernel/vmm.c:63-91 | over every run of such calls a page is mapped so exactly when some call asked for it, and otherwise resolves as at the start |
| `Vmm.RunKeeps` | kernel/vmm.c:63-91 | over every run the contents of user pages stay as they were |
| `Vmm.AllocPageEntries` | kernel/vmm.c:78-84 | in any state, with memory exhausted too, one turn takes a frame and writes what mapping the page to that frame writes, bit by bit |
| `Vmm.AllocPagesSplit` | kernel/vmm.c:77-86 | in any state a request is served like its two parts one after the other |
| `Vmm.ExhaustionUnnoticed` | kernel/vmm.c:79-84 | on exhaustion, unless the region starts at the second frame, a page is mapped to the frame below the region, and a table that was missing is made in that same frame |
| `Vmm.BootSound` | kernel/vmm.c:14-52 | `vmm_init` takes exactly the first 258 frames and leaves a sound directory with the direct map |
| `Vmm.BootMemory` | kernel/vmm.c:16-29 | what it leaves in memory: all 1024 entries of the directory, and every other frame as it was |
| `Vmm.TakesLowest` | kernel/vmm.c:42-48 | frames taken one after the other are the lowest free ones, whatever was in use |
| `Vmm.HeapLiesOnReservedFrames` | kernel/vmm.c:36-48 | every byte of the heap translates to a frame `vmm_init` reserved |
| `Vmm.HeapHasPlace` | kernel/vmm.c:39-40 | the heap start is aligned, above the heap's own length, and leaves room for a header and a trailer after the heap |
| `Vmm.HeapStartRoundsUp` | kernel/vmm.c:39 | wherever the kernel ends the heap starts at a page, more than one and less than two frames after it, but for the last two pages, where it wraps |
| `HeapPlace.WordBelow` | kernel/vmm.c:16-40 | with 4 MB pages the word 8 bytes below the heap is directory entry 1022, 0x3F800083 |
| `HeapPlace.NothingMapped` | kernel/vmm.c:16-28 | without them that entry is 2 and the directory maps nothing |
| `HeapPlace.LeadsNowhere` | kernel/kheap.c:90-91 | the header address that word leads to lies below the kernel half and is unmapped |
| `HeapPlace.FirstReleaseAfterBoot` | kernel/kheap.c:88-110 | so every release of the first block faults while coalescing on a kernel that has booted |
| `Vmm.UserDirectoryMapsWhereClear` | kernel/task.c:75-79 | a user task's directory can be mapped into exactly where the recycled frame had the size bit clear |
| `Vmm.VirtualMemory.MapKernelInto` | kernel/vmm.c:95-112 | the loop fills the 256 entries of the kernel half |
| `Vmm.VirtualMemory.Map` | kernel/vmm.c:56-59 | maps through the current directory and always reports success |
| `Vmm.VirtualMemory.AllocatePages` | kernel/vmm.c:63-91 | the loop computes the abstract state; it reports exhaustion exactly when some turn meets the null address, and then the pages before it stay mapped and its frame taken |
| `Vmm.VirtualMemory.AllocateOne` | kernel/vmm.c:79-84 | the loop body: a frame, then its mapping |
| `Vmm.VirtualMemory.Init` | kernel/vmm.c:14-52 | the state after boot; and for each way to fail, what is left of memory, the allocator and the heap's bounds |
| `Vmm.VirtualMemory.ReserveHeapFrames` | kernel/vmm.c:42-48 | the loop takes the heap's frames in order, or stops with the first null one taken |
| `Vmm.VirtualMemory.BuildDirectory` | kernel/vmm.c:16-28 | a zeroed frame becomes the kernel's directory |
| `HeapBlocks.Best` | kernel/kheap.c:137-153 | the smallest free block large enough, the lowest of those, or none if none is |
| `HeapBlocks.MergeSpan` | kernel/kheap.c:98-120 | absorbing a neighbour keeps the bytes the blocks take up |
| `HeapOps.NotLive` | kernel/kheap.c:88-121 | tags, and all of a free block, lie in no live payload |
| `HeapOps.SplitInMemory` | kernel/kheap.c:177-195 | the writes of a split leave a heap with the request carved off the free block, no live payload and nothing outside touched |
| `HeapOps.TakeInMemory` | kernel/kheap.c:163-173 | the writes of an exact fit with the right back link leave a heap without the block in its free list |
| `HeapOps.FreeInMemory` | kernel/kheap.c:223-242 | marking and linking leave a heap with the block free and in its place in the list |
| `HeapOps.MergeInMemory` | kernel/kheap.c:98-108 | merging with the trailer in the right place leaves a heap with one block fewer |
| `HeapFaults.SplitFit` | kernel/kheap.c:177-195 | a split leaves a heap exactly when the request is nonzero and more than 24 bytes remain; otherwise no sequence of blocks describes the memory |
| `HeapFaults.ExactFit` | kernel/kheap.c:57-64 | an exact fit leaves a heap exactly when the back link is the true predecessor, whatever the stale link points to |
| `HeapFaults.SameTags` | kernel/kheap.c:237-255 | memory determines the blocks: two heaps whose tags agree so far have the same blocks so far |
| `HeapRelease.CoalesceBoth` | kernel/kheap.c:88-121 | coalescing with a free right neighbour, and the left one if free, leaves the coalesced heap and touches no payload |
| `HeapRelease.CoalesceLeft` | kernel/kheap.c:110-120 | likewise with no free right neighbour: always when repaired, and as written when the left one is used |
| `HeapRelease.CoalesceLeftOnly` | kernel/kheap.c:110-120 | as written, with only the left neighbour free, no heap is left |
| `HeapRelease.ReleaseLater` | kernel/kheap.c:202-258 | releasing any block but the first leaves the coalesced heap exactly when the release is sound, other live payloads untouched |
| `HeapRelease.ReleaseFirst` | kernel/kheap.c:234-245 | for arbitrary words below the heap: if no free block is seen there, a heap is left exactly when the block after the first is free; if one is seen clear of the heap, memory outside the heap is written |
| `HeapRelease.OverlapsExactly` | kernel/kheap.c:89-91 | what is taken for the block before the first one overlaps the heap exactly for a narrow range of values of the word below the heap |
| `HeapRelease.MergeLosesHeap` | kernel/kheap.c:110-120 | a merge with it, in the heap or clear of it but off the first header, leaves no heap as written, unless the next block is free and the word taken for a size is 2^32 - 24 |
| `HeapRelease.QuietFirst` | kernel/kheap.c:88-110 | where those words lie clear of the heap, whether they can be read and show no free block is decided before the release |
| `HeapRelease.QuietStays` | kernel/kheap.c:88-110 | and no call that keeps to the heap changes it |
| `HeapRuns.RoundUp4IsMasking` | include/rotary/kheap.h:26 | the model's rounding is the macro's masking |
| `HeapRuns.RoundUp4Value` | include/rotary/kheap.h:26 | the least multiple of four not below the size, except that the last three sizes become zero |
| `HeapRuns.LiveDisjoint` | kernel/kheap.c:125-198 | live payloads never overlap and leave room for the tags between them |
| `HeapRuns.AllocatedLive` | kernel/kheap.c:125-198 | a sound allocation makes exactly one payload live, of the rounded size and not live before, and keeps free blocks coalesced and all tags aligned |
| `HeapRuns.ReleasedLive` | kernel/kheap.c:202-258 | a sound release takes exactly one payload out of the live ones and keeps free blocks coalesced |
| `HeapRuns.NextSettled` | kernel/kheap.c:125-258 | after every call that leaves a heap the blocks tile it, no two neighbours are free, and tags are aligned |
| `HeapRuns.InitialSettled` | kernel/kheap.c:5-29 | the fresh heap is such a state |
| `HeapRuns.AllowedRun` | kernel/kheap.c:88-258 | over every run of allocations that leave room and releases of live pointers (as written: not with only the left neighbour free) the blocks stay settled with the first one free; `HeapHistory.AllowedFromInit` is this in memory |
| `HeapRuns.FreeAll` | kernel/kheap.c:88-121 | in the repaired form, releasing every live pointer in any order gives back the single block `heap_init` made; in memory `HeapHistory.ReleaseAll` |
| `HeapLinks.SplitIs` | kernel/kheap.c:177-195 | a split takes the request off the end of the block, and changes no other |
| `HeapLinks.TakenIs` | kernel/kheap.c:163-173 | an exact fit hands out the block, gives its back link to the next free one, and changes no other |
| `HeapLinks.ReleasedIs` | kernel/kheap.c:88-257 | a release that leaves a heap (repaired, if only the left neighbour is free) makes one free block of the released one and its free neighbours, with all their bytes and the right back link, and changes no other |
| `HeapLinks.InitLinks` | kernel/kheap.c:5-29 | the fresh heap's back links are right |
| `HeapLinks.RightLinksServe` | kernel/kheap.c:57-64 | while all back links are right, every exact fit is sound |
| `HeapLinks.SplitKeepsLinks` | kernel/kheap.c:177-195 | a split keeps them right |
| `HeapLinks.TakeKeepsLinks` | kernel/kheap.c:163-173 | an exact fit keeps them right exactly when it is not of the first block, or that had been released before, or no other block is free |
| `HeapLinks.ReleaseKeepsLinks` | kernel/kheap.c:88-257 | such a release keeps them right exactly when of its neighbours only the left one is free, or no free block comes after |
| `HeapLosses.SplitThenFree` | kernel/kheap.c:110-120 | in every settled state a request served by a split and released at once loses the heap as written, and is undone in the repaired form |
| `HeapLosses.FirstRequest` | kernel/kheap.c:177-195 | from the fresh heap exactly the requests rounded up into its last 24 bytes, or to zero, lose it |
| `HeapLosses.FirstRelease` | kernel/kheap.c:110-120 | from the fresh heap, any other request and the release of what it was given lose the heap as written |
| `HeapLosses.WholeHeap` | kernel/kheap.c:163-173 | a first request for all of the heap is an exact fit of the first block, and its release loses the heap, repaired or not |
| `HeapLosses.HeadHandedOut` | kernel/kheap.c:163-173 | two requests from `heap_init` that share the whole heap hand out the first block, and the second one may be given back |
| `HeapLosses.HeadGivenBack` | kernel/kheap.c:239-242 | from there the release of the first block leaves one free block with itself as back link when it is quiet below the heap, and loses the heap otherwise |
| `HeapLosses.SuccessorGoesStale` | kernel/kheap.c:239-242 | a release between used neighbours makes an exact fit of the next free block unsound |
| `HeapLosses.ExactFitAfterRelease` | kernel/kheap.c:163-173 | a heap with all links right, a release the design allows, and an exact fit that then loses the heap |
| `HeapLosses.ExactFitFromInit` | kernel/kheap.c:163-173 | four requests and two releases the design allows lead there from `heap_init`, and a fifth request loses the heap |
| `HeapCalls.InitFit` | kernel/kheap.c:5-29 | `heap_init` leaves one free block that fills the heap exactly when the word after its last trailer was zero |
| `HeapCalls.AllocFit` | kernel/kheap.c:161-195 | serving a request leaves a heap exactly when that is sound |
| `HeapCalls.MallocFit` | kernel/kheap.c:125-198 | the memory after any request stands for the blocks of the abstract call, or for none |
| `HeapCalls.ReleaseFit` | kernel/kheap.c:218-257 | clearing, marking, linking and coalescing leave a heap exactly when that is sound, with the first block's two cases as above |
| `HeapHistory.LiveWritesKeepHeap` | kernel/kheap.c:34-84 | whatever is written to live payloads, and only there, the heap stays the same heap |
| `HeapHistory.HistoryKept` | kernel/kheap.c:88-258 | over every history of sound calls, exact fits and releases of the first block included, and stores to live payloads memory stands for the blocks, every word an owner wrote holds what it wrote last, and nothing outside the heap is written |
| `HeapHistory.HistoryRun` | kernel/kheap.c:88-258 | where what lies below the heap is clear of it, the blocks are those of the run of the calls |
| `HeapHistory.AllowedHistory` | kernel/kheap.c:88-258 | a history of calls the design allows is one of sound calls, and its blocks are those of the run, whatever lies below the heap |
| `HeapHistory.HistoryFromInit` | kernel/kheap.c:5-258 | every history of sound calls and stores from `heap_init` keeps a heap, the owners' words and everything outside |
| `HeapHistory.AllowedFromInit` | kernel/kheap.c:5-258 | every history of allowed calls from `heap_init` is such a one |
| `HeapHistory.LostInMemory` | kernel/kheap.c:88-258 | where the abstract call has no blocks, no sequence of blocks describes the memory the code leaves, or a merge below the first block has written outside the heap |
| `HeapHistory.ReleaseAll` | kernel/kheap.c:202-258 | in the repaired form, releasing every live pointer leaves in memory the heap `heap_init` made |
| `KernelHeap.SearchStep` | kernel/kheap.c:139-153 | one turn of the search goes to the next free block and keeps the best fit so far |
| `KernelHeap.NoFault` | kernel/kheap.c:88-121 | coalescing any block but the first reads nothing outside the heap |
| `KernelHeap.KernelHeap.constructor` | kernel/kheap.c:5-29 | one free block of `HEAP_MAX_SIZE` fills the cleared heap exactly when the word after it was zero; nothing outside written |
| `KernelHeap.KernelHeap.Memset` | kernel/string.c:5-9 | the words of the range become zero and no others change |
| `KernelHeap.KernelHeap.HeapUpdateBlock` | kernel/kheap.c:34-46 | size and flag in the header and in the trailer the size implies |
| `KernelHeap.KernelHeap.HeapCreateNewBlock` | kernel/kheap.c:68-84 | all tags of the new block |
| `KernelHeap.KernelHeap.HeapRemoveFreeBlock` | kernel/kheap.c:57-64 | unlinking through the links the header holds |
| `KernelHeap.KernelHeap.HeapCoalesceFreeBlock` | kernel/kheap.c:88-121 | the right merge, then the left one with its trailer as written or repaired; or a fault, with what was done before it |
| `KernelHeap.KernelHeap.MergeIntoPrevious` | kernel/kheap.c:110-120 | the left merge with whatever lies at the address computed, or a fault and no write |
| `KernelHeap.KernelHeap.FindBest` | kernel/kheap.c:137-153 | the walk along the free list finds the best fit among all blocks |
| `KernelHeap.KernelHeap.Serve` | kernel/kheap.c:161-197 | hands out the block found or the end of it |
| `KernelHeap.KernelHeap.Kmalloc` | kernel/kheap.c:125-198 | for every size: the blocks become those of the abstract call or no heap is left; the pointer, zero or a multiple of four inside the heap; live payloads and everything outside unchanged while a heap is left |
| `KernelHeap.KernelHeap.LinkFreeBlock` | kernel/kheap.c:234-255 | the walk stops at the block and links it behind the last list member before it |
| `KernelHeap.KernelHeap.Kfree` | kernel/kheap.c:202-258 | for a live pointer or one outside the heap: refused outside; a fault exactly when coalescing the first block reads an unmapped address; otherwise the blocks become those of the abstract call, with the payload cleared and other live ones unchanged, or no heap is left, or memory below the first block is written |
| `Scheduler.Search` | kernel/task.c:237-247 | the first slot cyclically from the start that can run; terminates because the distance to a runnable slot falls |
| `Scheduler.SearchEnds` | kernel/task.c:242-247 | the search ends exactly when some slot is RUNNING or WAITING |
| `Scheduler.PurgeBelow` | kernel/task.c:230-235 | the purge loop clears exactly the killed slots but idle's |
| `Scheduler.CreateSafe` | kernel/task.c:39-123 | creating within the table keeps the invariant; the new slot owns the new stack |
| `Scheduler.GuardStaysEmpty` | kernel/task.c:50-52 | the slot after the table stays empty exactly when `last_task_id` is below `TASK_MAX` |
| `Scheduler.TableFills` | kernel/task.c:50-108 | seven creates after `task_init` fill the table, and one more takes the slot after its end |
| `Scheduler.KillSafe` | kernel/task.c:127-159 | killing any id keeps the invariant |
| `Scheduler.ExitSafe` | kernel/task.c:205-211 | a task other than idle exiting keeps the invariant |
| `Scheduler.PurgeReturnsStack` | kernel/task.c:163-201 | a purge gives back exactly the stack of the task it purges, which was still held: none is freed twice |
| `Scheduler.CreateFills` | kernel/task.c:39-123 | a create writes all of the structure after the last one, field by field, and no other; what a refused stack and a bad state leave |
| `Scheduler.KillMarks` | kernel/task.c:127-159 | a kill marks a task that runs, waits or is paused, in whichever slot from 1 to 8, and changes no other field of any slot; for any other id it changes nothing |
| `Scheduler.ExitMarks` | kernel/task.c:205-211 | an exit marks the current task, and changes nothing else |
| `Scheduler.PurgeClears` | kernel/task.c:163-201 | a purge clears all of a killed task's structure but its id, gives back that stack, and changes no other slot |
| `Scheduler.InitStarts` | kernel/task.c:21-35 | idle runs and is current, and nothing else changes |
| `Scheduler.ScheduleNext` | kernel/task.c:237-251 | the next task is the first RUNNING or WAITING slot cyclically after the current one |
| `Scheduler.ScheduleSafe` | kernel/task.c:221-261 | afterwards exactly the current slot is RUNNING, none is KILLED, and the invariant holds |
| `Scheduler.SchedulePicks` | kernel/task.c:237-251 | in any table with a slot that can run, the task picked is the first such one cyclically from the slot after the current task's id |
| `Scheduler.ScheduleKeeps` | kernel/task.c:221-257 | in any such table a schedule leaves id, stack pointers, stack and directory of every slot it does not purge; one tick is counted, for the task that was current; the states change as lines 253-256 say; a purged slot is all zero but for its id |
| `Scheduler.ScheduleGivesBack` | kernel/task.c:230-235 | the stacks given back are exactly those of the tasks purged |
| `Scheduler.InitSafe` | kernel/task.c:21-35 | the table after `task_init` satisfies the invariant |
| `Scheduler.Final` | kernel/task.c:21-261 | over every run of creates, kills, exits and schedules the invariant holds: at most the current slot runs, idle can run, slots from `last_task_id` on are empty, ids are indices, live stacks are those of used slots and distinct |
| `Scheduler.ScheduleGetsCloser` | kernel/task.c:237-260 | each schedule strictly decreases a waiting task's distance from the current slot, or runs it |
| `Scheduler.BoundedFairness` | kernel/task.c:221-261 | a waiting task that is not killed runs within `TASK_MAX - 1` schedules, whatever else happens between them |
| `Scheduler.KilledNeverRuns` | kernel/task.c:127-257 | over every run a killed task is never current again, or, if it was current, not after the next schedule, which clears its slot for good |
| `Scheduler.ExitedNeverRuns` | kernel/task.c:205-257 | nor is a task that has exited once `task_schedule` has been called |
| `Scheduler.IdleExitHangs` | kernel/task.c:205-247 | after idle exits with nothing else runnable every turn of the search looks at a slot that cannot run |
| `Scheduler.IdleExitHangsAtStart` | kernel/task.c:205-247 | right after `task_init` the exit of idle hangs the search |
| `Scheduler.FailedStackUnnoticed` | kernel/task.c:57-61 | creation is given up exactly for the address 0xFFFFFFFF, never for a multiple of four as `kmalloc` returns; its failure value 0 becomes a stack |
| `Scheduler.TaskTable.TaskInit` | kernel/task.c:21-35 | idle runs, and the scheduler is ready |
| `Scheduler.TaskTable.TaskCreate` | kernel/task.c:39-123 | the new slot, and which of the two failures is reported when |
| `Scheduler.TaskTable.TaskKill` | kernel/task.c:127-159 | the abstract kill, and exactly when it reports success |
| `Scheduler.TaskTable.TaskPurge` | kernel/task.c:163-201 | the abstract purge, and exactly when it reports success |
| `Scheduler.TaskTable.TaskExitCurrent` | kernel/task.c:205-211 | the current task is killed |
| `Scheduler.TaskTable.PurgeKilled` | kernel/task.c:230-235 | the loop computes the abstract purge of the table |
| `Scheduler.TaskTable.FindNext` | kernel/task.c:238-247 | the loop computes the abstract search |
| `Scheduler.TaskTable.TaskSchedule` | kernel/task.c:221-257 | the abstract schedule, up to the call of `task_switch`, with the tasks to switch between |
| `TaskSwitch.SaveParks` | arch/x86/kernel/task-switch.asm:25-47 | saving parks the caller with exactly the context it called in |
| `TaskSwitch.LoadResumes` | arch/x86/kernel/task-switch.asm:53-69 | loading resumes a parked context exactly: esp, ebp, ebx, esi, edi, cr3, return address, stack |
| `TaskSwitch.SwitchToSelf` | arch/x86/kernel/task-switch.asm:25-69 | switching to oneself is the identity on the context |
| `TaskSwitch.SwitchLeaves` | arch/x86/kernel/task-switch.asm:25-69 | the other registers after a switch: eax and edx hold the arguments; ecx, the code segment and the flags are as before |
| `Isolation.SwitchResumes` | arch/x86/kernel/task-switch.asm:25-69 | a switch resumes the other task in the context it was parked with |
| `Isolation.NextSound` | arch/x86/kernel/task-switch.asm:25-69 | whatever a task does on its own stack, and through switches and creations, on the stacks of tasks long gone too, every parked context stays intact |
| `Isolation.ParkedResumes` | arch/x86/kernel/task-switch.asm:25-69 | a parked task resumed after any run of the others, however many, gets exactly the context it was parked with |
| `Isolation.ContextIsolation` | kernel/task.c:249-260 | a task resumed after any run of the others finds exactly the registers, return address, directory and stack it had |
| `TaskSwitch.NewTaskParked` | kernel/task.c:63-108 | the stack `task_create` builds is a parked context, with the frame that starts the task above it |
| `NewTasks.NewTaskMatchesTable` | kernel/task.c:63-108 | the structure written is, word by word, the task of the table's model |
| `TaskSwitch.IsrExitPops` | arch/x86/kernel/isr.asm:14-19 | which of the thirteen words on the stack `isr_exit` loads into which register; memory and cr3 stay |
| `TaskSwitch.FirstEntry` | arch/x86/kernel/isr.asm:14-19 | from there `isr_exit` reaches the start address with cs 8, eflags 0x200 and esp at the stack top |
| `Isolation.NewTaskStarts` | kernel/task.c:83-111 | so does every new task first resumed after any run of the others |
| `Multitasking.InitJoined` | kernel/task.c:21-35 | after `task_init` table and processor agree, with idle the one task |
| `Multitasking.NextJoined` | kernel/task.c:39-261 | creates, kills, exits, schedules and what tasks compute between them keep the table and the processor on the same current task, with every other live task parked |
| `Multitasking.RunIsJoined` | kernel/task.c:221-261 | over every run of both, with stacks recycled or not, each runnable slot but the current one is parked, and every `task_schedule` is a legal switch |
| `Multitasking.WaitingComesBack` | kernel/task.c:221-261 | a waiting task that is not killed is resumed within `TASK_MAX - 1` schedules in exactly the context it was parked in |
| `Multitasking.SchedulerGivesBack` | kernel/task.c:237-260 | a running task taken off the processor is resumed within as many, exactly where it was |
| `Multitasking.StackUsedTwice` | kernel/task.c:39-261 | from `task_init`, a task created, killed and purged, and another one created on the same stack, is such a run |
| `Stacks.StacksApart` | kernel/kheap.c:125-198 | stacks the heap has handed out do not overlap |
| `Stacks.NewStack` | kernel/task.c:57 | the stack `kmalloc` gives is clear of all it has given and not got back |
| `Stacks.StepSound` | kernel/task.c:39-261 | creates with the stacks `kmalloc` gives, kills, exits, schedules with the stacks they give back, and what others ask of the heap keep the table, the heap, and the live stacks handed out |
| `Stacks.RunKeepsStacks` | kernel/task.c:39-261 | over every run that leaves a heap, the stacks of the tasks are distinct payloads of 8192 bytes that do not overlap |
| `Stacks.NewStackIsClear` | kernel/task.c:57 | so a new task's stack is always one that the run of table and processor asks for |
| `Stacks.StackComesAgain` | kernel/kheap.c:137-173 | a stack given back between used neighbours is the next one handed out, unless another free block has just its size |
| `Stacks.StackUsedAgain` | kernel/task.c:39-261 | from `heap_init` and `task_init`: two tasks, the first killed and purged, and the third gets its stack |
| `Stacks.OwnStackGivenBack` | kernel/task.c:187-235 | a task killed while it runs is still on its stack when `task_schedule` gives that back to the heap, and it is live no more |
| `TaskSwitch.Processor.TaskSwitch` | arch/x86/kernel/task-switch.asm:25-69 | the instructions compute the abstract switch |
| `TaskSwitch.Processor.IsrExitCode` | arch/x86/kernel/isr.asm:14-19 | the instructions compute the abstract return from the interrupt |
| `Division.NoBitLost` | kernel/multiboot.c:10-12 | at no turn does the shift lose a bit of the remainder, even for divisors above 2^63 |
| `Division.DivisionExact` | kernel/multiboot.c:5-27 | quotient and remainder are exact for every nonzero divisor; for zero they are 2^64-1 and the dividend |
| `Division.TurnsFit` | kernel/multiboot.c:6-18 | both fit 64 bits after every turn |
| `Division.Udivmod64` | kernel/multiboot.c:5-27 | the loop divides exactly |
| `Numerals.NumeralParses` | kernel/multiboot.c:29-49 | the printed text parses back to the value, in every base from 2 to 16 |
| `Numerals.NumeralDigits` | kernel/multiboot.c:33-38 | no leading zero unless the value is zero, and only digits of the base |
| `Numerals.NumeralFits` | kernel/multiboot.c:117-120 | at most 64 digits, and at most 16 in base 16, so the callers' 32-byte buffers suffice |
| `Numerals.ReverseInPlace` | kernel/string.c:32-38 | the two-index loop reverses the digits in place and touches nothing else |
| `Numerals.IntToStr` | kernel/string.c:23-39 | writes the decimal numeral, a NUL, and nothing else |
| `Numerals.Uint64ToStr` | kernel/multiboot.c:29-49 | writes the numeral in the base, a NUL, and nothing else |
| `Numerals.HexWord` | kernel/string.c:43-52 | eight hexadecimal digits are the base-16 numeral behind leading zeros |
| `Numerals.HexParses` | kernel/string.c:43-52 | they stand for the number in base 16 |
| `Numerals.IntToHexStr` | kernel/string.c:43-52 | writes those eight digits, a NUL, and nothing else |
| `Numerals.Strlen` | kernel/string.c:208-214 | the length below 512, all ones otherwise |
| `Numerals.Atoi` | kernel/string.c:250-255 | the value read, as long as no step overflows an `int` |
| `Numerals.ReadNumeral` | kernel/string.c:23-39 | `atoi` undoes `int_to_str` |
| `Numerals.ReadDigits` | kernel/string.c:250-255 | a string of decimal digits, with leading zeros or without, is read as the number it stands for |
| `Numerals.ReadNext` | kernel/string.c:250-255 | each further character, whatever it is, multiplies by ten and adds its code less that of zero |
| `Numerals.ReadableNumerals` | kernel/string.c:250-255 | no step overflows exactly for the values at least 48 below the largest `int` |
| `Format.FieldWidth` | kernel/string.c:95-142 | a field has the width asked for exactly when its argument is not a string of 512 characters or more |
| `Format.TextWritten` | kernel/string.c:95-109 | `%s` with any padding writes the text, character for character, behind zeros |
| `Format.NumberWritten` | kernel/string.c:110-121 | `%d` writes a numeral without leading zeros that stands for the value in base 10, behind the zeros of the padding |
| `Format.HexWritten` | kernel/string.c:122-134 | `%x` writes eight digits that stand for the value in base 16, behind the zeros of the padding |
| `Format.CharacterWritten` | kernel/string.c:135-142 | `%c` writes the character behind zeros |
| `Format.UnknownWritten` | kernel/string.c:94-143 | any other letter, a second '%' among them, writes nothing and reads nothing |
| `Format.PlainWritten` | kernel/string.c:150-156 | a format without '%' is written as it stands |
| `Format.WrittenInTurn` | kernel/string.c:64-157 | formats one after the other are written one after the other, each with its own arguments |
| `Format.FillBuffer` | kernel/string.c:56-60 | appends that many of the character, none for a count that is not positive |
| `Format.ReadPadding` | kernel/string.c:85-90 | reads exactly the digits before the directive's letter |
| `Format.Directive` | kernel/string.c:94-143 | writes the field of the directive and consumes its argument; unknown letters write nothing |
| `Format.CopyPending` | kernel/string.c:78-81 | copies the text between the two cursors |
| `Format.Percent` | kernel/string.c:74-146 | one turn of the loop at a '%' |
| `Format.Sprintf` | kernel/string.c:64-157 | writes exactly the rendering of the format and its arguments, a NUL, and nothing beyond it |

## Left out

- Port I/O, the interrupt controller, the timer, serial, keyboard, screen, shell, logging and panic: device plumbing.
- Descriptor tables and CPUID: straight-line bit packing, and a parameter here.
- TLB and CR3 effects: the model's translation always reads the tables in memory.
- `multiboot_parse`: the configured memory range is a precondition of the frame allocator.
- `strcpy`, `strncpy`, `strcat`, `strcmp`, `memcpy`, `itoa`, `reverse`: unused or simple.
- The task lock: `task_schedule` does not take it, so calls are atomic steps here; nor does the model follow the lock
  that a refused stack leaves taken.
- `Stacks.RunKeepsStacks`: idle's stack, which does not come from the heap.
- `Multitasking.NextJoined`: `task_create` and `task_schedule` are single steps here, with their writes to memory among
  what tasks compute.
- `Isolation.ContextIsolation`: the stack of a task that killed itself and was purged while it still ran on it is not
  protected; purged tasks are never resumed.
- `Scheduler.TaskTable.TaskSchedule`: the call of `task_switch` itself is in `TaskSwitch`.
- `Scheduler.TaskTable.TaskCreate`: the name is not modelled, and the stack's contents are in `TaskSwitch.NewTask`.
- `Scheduler.TaskTable.FindNext`: a table in which nothing can run, where the loop does not end
  (`Scheduler.SearchEnds`).
- `Pmm.FrameAllocator.SetMemoryRange`: a region that is not page-aligned, or of more than 131072 frames, for which the
  code indexes past its bitmap.
- `TableAccess.Astray`: tables above 3 GB (`TableAccess.TableBelow`), and a loaded directory other than the one edited
  and those `task_create` makes.
- `KernelHeap.KernelHeap.Kfree`: a pointer inside the heap that was never handed out is not modelled, since what happens
  depends on arbitrary bytes before it. The merge below the first block is taken to be able to write where it reads.
- `HeapRelease.ReleaseFirst`: where the code takes words of the heap itself for a free block before the first one, as it
  does for the words of `HeapRelease.OverlapsExactly` only, what is left is said by `HeapRelease.MergeLosesHeap`, which
  leaves open the repaired form, a merge that writes the first header, and the one word it excepts.
- `KernelHeap.KernelHeap.Memset`: word by word, for lengths that are multiples of four, as all the heap's are.
- `HeapHistory.HistoryFromInit`: owners write whole words; the blocks they write to are those the calls have handed out.
- `HeapRuns.AllowedRun`: exact fits and releases of the first block; `HeapHistory.HistoryKept` has the sound ones.
- `HeapRuns.FreeAll`: only for the repaired form, and heaps whose first block is free.
- `Format.Sprintf`: a format that ends inside a directive makes the code read past its end, and a padding beyond the
  largest `int` is undefined; both are excluded, as are arguments of the wrong kind and buffers that are too small.
- `Numerals.Atoi`: undefined overflow is excluded by the precondition.
- `Vmm.VirtualMemory.Init`: handing the heap its memory is `KernelHeap`'s constructor.
