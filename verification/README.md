# tso-alloc: a verified model

The repository adds a small memory allocator to the Linux 4.1.2 kernel: three system calls hand out and take back
blocks of a per-task mapping, and `fork` gives each new task an allocator of its own. This project models that
allocator over raw bytes, the process duplication it hooks into, and the benchmark program that drives it, and proves
what they promise. The target is the 32-bit one whose system call table the repository extends: words of four bytes,
headers of eight, pages of 4096 bytes.

| file | what it models |
|---|---|
| Basics.dfy | an option type and the minimum |
| Words.dfy | bytes, little-endian words, wrapping arithmetic |
| Regions.dfy | the list of live regions as a value, its gaps, the search, the heap invariant |
| Laws.dfy | laws of allocation and release on values |
| HeapBytes.dfy | how the list and the payloads lie in raw memory |
| Mapping.dfy | `tsoalloc.c`: the calls, walking and updating raw memory in place |
| Traces.dfy | whole runs over many tasks: the specification and its theorems |
| Systems.dfy | tasks as objects, and a driver that runs any list of events on them |
| Benchmark.dfy | `test6.c`: the client, its array and its counters |
| Processes.dfy | `copy_process` as a transition over tables of kernel objects, reference counts, sharing |
| Forks.dfy | `copy_process` step by step, with its ladder of labels |
| VmaCopy.dfy | `dup_mmap` and `dup_mm` over linked areas, memory charges and file references |
| AddressSpaces.dfy | allocator runs and `copy_process` runs side by side |
| MaxThreads.dfy | `set_max_threads` |

The heart is one refinement: `Systems.Run` executes any list of allocations, releases, strategy switches, user stores
and forks on byte arrays, and what it does is a run of the specification in `Traces.dfy`, where a task is a map from
live addresses to contents. Everything promised to a user is then a theorem about such runs.

## Assumptions

- A system call is one step; `current_strategy` does not change while one runs.
- `vm_mmap` succeeds at a non-zero base and the range ends below 2^32; `kmalloc` succeeds; the caller's result slot
  lies outside the mapping.
- `vm_mmap` promises a range that is free in the caller's address space only; a fork without CLONE_VM opens a new one.
- Sizes and strategy numbers may be anything. `Laws.CodeAllocSoundExactly` says which allocations are sound; a run
  stops at the first that is not, since what other calls would then read is no region list.
- A store names the task whose mapping it reaches, any task of the storing one's address space
  (`Traces.HolderIsUnique`); a run stops at the first store into a header or outside that mapping. Stores to memory
  that no task's mapping holds, the copy that a fork without CLONE_VM leaves the child included, are not events.
- Releasing before any allocation dereferences a NULL mapping in the kernel; a run records it as `NullMapping` and
  changes nothing.
- In the benchmark the numbers `rand()` gives after `srand` and the values found in the uninitialised `place` are
  parameters, the falldown product is taken over the reals, jitter is at most the mean, and a division by zero ends
  the run with `trapped`.
- In `copy_process` the answers of calls outside the file are fields of the request, slab caches hand out unused
  objects, all tasks belong to one user, and boot is one ordinary task. In `dup_mmap` they are the `Answers`, and the
  parent's own reference keeps its `exe_file` alive.
- `set_max_threads` is stated for a thread size with threadSize * 8 * MAX_THREADS <= 2^63. Error numbers,
  `FUTEX_TID_MASK` and the order of clone checks are those of Linux 4.1.

## Model

| member | source | states |
|---|---|---|
| `Regions.Disjoint` | usr/src/linux-4.1.2/kernel/tsoalloc/tsoalloc.c:181-195 | in any well-formed heap, header-and-payload extents of live regions are pairwise disjoint, rise in address and lie inside the mapping |
| `Regions.Conservation` | usr/src/linux-4.1.2/kernel/tsoalloc/tsoalloc.c:128-132 | the free counter's value is the sum of all gaps, lies between 0 and the mapping size, and no gap exceeds it |
| `Regions.ChooseScans` | usr/src/linux-4.1.2/kernel/tsoalloc/tsoalloc.c:88-133 | after scanning any number of gaps, the one kept fits, none scanned is better, and every earlier fitting one is strictly worse |
| `Regions.ChooseIsChosen` | usr/src/linux-4.1.2/kernel/tsoalloc/tsoalloc.c:60-141 | the single pass returns gap k iff k is what the strategy promises (lowest, smallest or largest gap strictly larger than the request, ties to the lowest address), and nothing iff no gap fits |
| `Laws.InsertGaps` | usr/src/linux-4.1.2/kernel/tsoalloc/tsoalloc.c:167-195 | allocation replaces the chosen gap g by 0 and g minus the region size, all other gaps kept |
| `Laws.ReleaseMerges` | usr/src/linux-4.1.2/kernel/tsoalloc/tsoalloc.c:233-248 | release replaces two neighbouring gaps and the region between them by one gap of their total size |
| `Laws.PlaceExactly` | usr/src/linux-4.1.2/kernel/tsoalloc/tsoalloc.c:157-176 | for every size and strategy number, a place is found iff the list is empty and the request fits the mapping, or some gap is strictly larger; the early counter check never refuses anything else; the place is the strategy's choice, or the first gap under an unlisted number |
| `Laws.AllocKeepsWellFormed` | usr/src/linux-4.1.2/kernel/tsoalloc/tsoalloc.c:143-210 | for every strategy number, an allocation keeps the heap well formed iff the number is listed, or the request is refused, or the list is empty, or the first gap has room; then it lowers the free count by exactly the region size, adds one live address that was not live, and changes nothing when refused |
| `Laws.CodeAllocSoundExactly` | usr/src/linux-4.1.2/kernel/tsoalloc/tsoalloc.c:56-210 | for every 32-bit size and every strategy number, the code with its wrapping size keeps the heap well formed iff it refuses, or size plus header does not wrap and the first gap has room should the number be unlisted; it then does what true arithmetic would |
| `Laws.AllocLands` | usr/src/linux-4.1.2/kernel/tsoalloc/tsoalloc.c:60-210 | for every size and strategy number, in terms of gaps alone: an empty list takes a region iff the wrapped region size is at most the mapping, any other iff some gap is strictly larger; the region goes to the lowest, the smallest or the largest such gap, ties to the lowest address, or to the start under an unlisted number; nothing else of the list changes |
| `Laws.UnlistedStrategyOverlaps` | usr/src/linux-4.1.2/kernel/tsoalloc/tsoalloc.c:136-138 | a concrete heap on which an unlisted strategy number puts a region on top of a live one |
| `Laws.WrappedSizeGranted` | usr/src/linux-4.1.2/kernel/tsoalloc/tsoalloc.c:157-158 | on a fresh mapping the size 0xFFFFFFFF passes the counter check, and a block larger than the mapping is granted |
| `Laws.StrategiesAgreeOnSuccess` | usr/src/linux-4.1.2/kernel/tsoalloc/tsoalloc.c:99-120 | from one heap any two strategy numbers succeed or fail together and leave the same free count |
| `Laws.RemainderPositive` | usr/src/linux-4.1.2/kernel/tsoalloc/tsoalloc.c:92-95 | on a non-empty list, for every strategy number, the gap used becomes an empty gap and a remainder, strictly positive iff the number is listed or the first gap is strictly larger than the region |
| `Laws.SmallerGapIsKinder` | usr/src/linux-4.1.2/kernel/tsoalloc/tsoalloc.c:99-120 | using a smaller fitting gap never leaves a smaller largest gap |
| `Laws.StrategyComparison` | usr/src/linux-4.1.2/kernel/tsoalloc/tsoalloc.c:76-86 | after one successful allocation the largest gap left is greatest under best fit, then first fit, then worst fit |
| `Laws.ReleaseLive` | usr/src/linux-4.1.2/kernel/tsoalloc/tsoalloc.c:233-248 | releasing a live payload address removes exactly that region, adds its size to the free count and keeps every other address live |
| `Laws.ReleaseExactly` | usr/src/linux-4.1.2/kernel/tsoalloc/tsoalloc.c:221-265 | release changes the list iff its argument is a live payload start; it returns -1 iff the address is unknown and the number of live regions is not one |
| `Laws.ReleaseTakesOut` | usr/src/linux-4.1.2/kernel/tsoalloc/tsoalloc.c:221-265 | in terms of regions alone: the address just behind a header takes out that region and returns 0; any other changes nothing and returns 0 if just one region is live and -1 if not |
| `Laws.UnknownAddressReportedAsFreed` | usr/src/linux-4.1.2/kernel/tsoalloc/tsoalloc.c:239-243 | a concrete heap with one region on which freeing an unknown address returns 0 |
| `Laws.RoundTrip` | usr/src/linux-4.1.2/kernel/tsoalloc/tsoalloc.c:143-266 | allocation, when safe, then release restores list and counter, and the same request then gets the same address and the same heap |
| `Laws.ReleasesCommute` | usr/src/linux-4.1.2/kernel/tsoalloc/tsoalloc.c:229-259 | two releases in either order give the same heap |
| `Laws.DrainInAnyOrder` | usr/src/linux-4.1.2/kernel/tsoalloc/tsoalloc.c:229-259 | freeing all live addresses in any permutation leaves no region and every byte free |
| `Laws.PackedAlloc` | usr/src/linux-4.1.2/kernel/tsoalloc/tsoalloc.c:128-132 | while only the last gap is open, any sound allocation, whatever its size and strategy number, is made at the end of the last region or refused |
| `Laws.AllocOnlyRunBumps` | usr/src/linux-4.1.2/kernel/tsoalloc/tsoalloc.c:143-210 | any sound allocation-only run of the code, with any mix of strategy numbers, gives exactly the results of one cursor moving up: block k sits at start plus earlier region sizes plus header |
| `Laws.PlainRunsAreSound` | usr/src/linux-4.1.2/kernel/tsoalloc/tsoalloc.c:143-210 | every run of listed strategies and sizes that do not wrap is sound |
| `HeapBytes.AllocBytes` | usr/src/linux-4.1.2/kernel/tsoalloc/tsoalloc.c:181-195 | whatever room the gap has, the writes of an allocation change only the new header's bytes and the predecessor's next word |
| `HeapBytes.AllocRepresents` | usr/src/linux-4.1.2/kernel/tsoalloc/tsoalloc.c:181-195 | in a gap with room, those writes leave raw bytes that hold the list with the new region in it, and the right first pointer |
| `HeapBytes.NoListDescribes` | usr/src/linux-4.1.2/kernel/tsoalloc/tsoalloc.c:181-195 | in a gap without room, they leave raw bytes that no region list at all describes |
| `HeapBytes.MemoryDeterminesList` | usr/src/linux-4.1.2/kernel/tsoalloc/tsoalloc.c:128-132 | raw bytes and the first pointer determine the region list |
| `HeapBytes.AllocLive` | usr/src/linux-4.1.2/kernel/tsoalloc/tsoalloc.c:181-195 | they add one block and leave the contents of every live block as they were |
| `HeapBytes.ReleaseBytes` | usr/src/linux-4.1.2/kernel/tsoalloc/tsoalloc.c:233-248 | the write of a release changes at most the predecessor's next word |
| `HeapBytes.ReleaseRepresents` | usr/src/linux-4.1.2/kernel/tsoalloc/tsoalloc.c:233-248 | after that write the raw bytes hold the list without the region |
| `HeapBytes.ReleaseLiveMap` | usr/src/linux-4.1.2/kernel/tsoalloc/tsoalloc.c:233-248 | it drops one block and leaves the contents of every other live block as they were |
| `HeapBytes.StoreLive` | home/test1.c:25-39 | a store anywhere in the mapping changes at most one byte, in the one block that holds its address |
| `HeapBytes.StoreKeepsListExactly` | home/test1.c:25-39 | a store anywhere in the mapping leaves the list in memory as it was iff it misses every header or writes the byte already there; freed bytes may be overwritten |
| `HeapBytes.WalkReachesNull` | usr/src/linux-4.1.2/kernel/tsoalloc/tsoalloc.c:88-133 | following next words through raw memory from the first pointer visits exactly the live regions, at strictly rising addresses, and then reaches NULL |
| `Mappings.EncodeUnambiguous` | usr/src/linux-4.1.2/kernel/tsoalloc/tsoalloc.c:14-18 | state and predecessor address together name one gap, or none |
| `Mappings.FirstFound` | usr/src/linux-4.1.2/kernel/tsoalloc/tsoalloc.c:108-113 | under first fit, returning at the first fitting gap is the result of the full scan |
| `Mappings.Mapping.ListIsInMemory` | usr/src/linux-4.1.2/kernel/tsoalloc/tsoalloc.c:128-132 | one region list only describes a mapping's memory, so the ghost list adds nothing to it |
| `Mappings.Mapping.HeadersInMemory` | usr/src/linux-4.1.2/include/linux/tsoalloc.h:17-20 | a live region's header is two little-endian words, the next region's address and then its own size |
| `Mappings.Mapping.constructor` | usr/src/linux-4.1.2/kernel/tsoalloc/tsoalloc.c:24-46 | a fresh mapping has an empty list and all its bytes free |
| `Mappings.Mapping.GetFit` | usr/src/linux-4.1.2/kernel/tsoalloc/tsoalloc.c:60-141 | for every size and strategy number, walking raw memory with wrapping arithmetic, the loop terminates; on a non-empty list it reports no fit iff no gap is strictly larger than the wrapped region size, and otherwise the region before the lowest, smallest or largest such gap, ties to the lowest address, as state and predecessor; an unlisted number gives the start whenever any gap fits |
| `Mappings.Mapping.ScanStep` | usr/src/linux-4.1.2/kernel/tsoalloc/tsoalloc.c:88-122 | one turn of the loop body takes the scan of i gaps to the scan of i+1 |
| `Mappings.Mapping.GapByWords` | usr/src/linux-4.1.2/kernel/tsoalloc/tsoalloc.c:128-132 | both gap formulas, in wrapping arithmetic on header words, give the true gap |
| `Mappings.Mapping.Placement` | usr/src/linux-4.1.2/kernel/tsoalloc/tsoalloc.c:167-179 | for every size and strategy number, the position computed from state and predecessor is the left edge of the chosen gap |
| `Mappings.Mapping.Splice` | usr/src/linux-4.1.2/kernel/tsoalloc/tsoalloc.c:181-199 | writing the header, linking it and lowering the counter gives the heap with the region inserted and changes nothing else; with room in the gap the mapping stays valid and holds one more block, without it no region list describes the memory |
| `Mappings.Mapping.SysAlloc` | usr/src/linux-4.1.2/kernel/tsoalloc/tsoalloc.c:143-210 | for every size and strategy number: succeeds iff the list is empty and the wrapped region size at most the mapping, or some gap is strictly larger; the new region is linked in at the left edge of the gap its strategy promises, the address is behind its header, and only that header and the word linking it change; a refusal changes nothing; the mapping stays valid iff the call is sound, and then the block map is the old one with at most one new block |
| `Mappings.Mapping.GuardDecides` | usr/src/linux-4.1.2/kernel/tsoalloc/tsoalloc.c:143-158 | a call is sound iff it is refused or a test on the size, the strategy number and the first pointer, made before the call, passes |
| `Mappings.Mapping.UnlinkFirst` | usr/src/linux-4.1.2/kernel/tsoalloc/tsoalloc.c:233-236 | the branch for the first region removes exactly it |
| `Mappings.Mapping.UnlinkAfter` | usr/src/linux-4.1.2/kernel/tsoalloc/tsoalloc.c:245-249 | the branch inside the loop removes exactly the matched region |
| `Mappings.Mapping.SysFree` | usr/src/linux-4.1.2/kernel/tsoalloc/tsoalloc.c:212-266 | for any address, the loop terminates; list, counter, return code, block map and the bytes touched are those of the specification |
| `Mappings.Mapping.UserWrite` | home/test1.c:25-39 | a store anywhere in the mapping but into a header keeps the heap valid and updates the block that holds the address, if any, and no other |
| `Systems.Task.SysAlloc` | usr/src/linux-4.1.2/kernel/tsoalloc/tsoalloc.c:152-210 | the first allocation creates the mapping; every sound allocation is a step of the run specification, and a sound one is told from an unsound one |
| `Systems.Task.SysFree` | usr/src/linux-4.1.2/kernel/tsoalloc/tsoalloc.c:212-266 | every release is a step of the run specification |
| `Systems.Step` | usr/src/linux-4.1.2/kernel/tsoalloc/tsoalloc.c:143-273 | one event over many tasks changes only the task it works on (for a store, the task of the storing one's address space whose mapping it reaches), or the one global strategy, or adds a task with no mapping; an unsound allocation leaves every other task as it was, a stray store every task |
| `Systems.Run` | usr/src/linux-4.1.2/kernel/tsoalloc/tsoalloc.c:143-273 | any list of allocations of any size, releases, stores by any task, switches to any strategy number and forks, run from boot on byte memories, is a run of the specification over abstract memories; it ends early only at an allocation that leaves its heap ill formed, or at a store to a task that does not exist, is in another address space or has no mapping, or to an address outside that mapping or in a header; it leaves every byte heap valid and equal to its abstract memory, the one of such an allocation aside |
| `Traces.EnabledExactly` | usr/src/linux-4.1.2/kernel/tsoalloc/tsoalloc.c:143-273 | in coherent states exactly those two kinds of event have no step: every release, strategy switch and fork by an existing task has one |
| `Traces.WhatCallersSee` | usr/src/linux-4.1.2/kernel/tsoalloc/tsoalloc.c:143-273 | what a call returns and does to the blocks, without the region list: an allocation is refused iff no gap serves it and else returns a new block of the size asked for; a release returns 0 iff the block exists or one region is live, and drops it; a store changes its one byte; no other block is touched |
| `Systems.EveryWalkEnds` | usr/src/linux-4.1.2/kernel/tsoalloc/tsoalloc.c:88-133 | in every state a run reaches, following next words through any task's memory from its first pointer visits exactly the live regions, at rising addresses and with disjoint extents inside the mapping, and then reaches NULL |
| `Traces.StepCoherent` | usr/src/linux-4.1.2/kernel/tsoalloc/tsoalloc.c:143-266 | each step keeps the abstract memory and the list of regions in agreement |
| `Traces.RunCoherent` | usr/src/linux-4.1.2/kernel/tsoalloc/tsoalloc.c:143-273 | so does every run: every reachable state of every task satisfies the heap invariant |
| `Traces.BlocksApart` | usr/src/linux-4.1.2/kernel/tsoalloc/tsoalloc.c:181-201 | in a coherent state two live blocks lie apart with room for a header, inside the mapping |
| `Traces.OnlyStoresChange` | home/test1.c:17-39 | over any run in which its owner does not free it, a block stays live and holds exactly what was stored into it, by its owner or another task, whatever system calls all tasks make meanwhile |
| `Traces.OtherSpacesHarmless` | home/test1.c:17-39 | if no task of its address space stores into it and its owner does not free it, a block keeps every byte, whatever tasks of other address spaces do |
| `Traces.Projection` | usr/src/linux-4.1.2/kernel/tsoalloc/tsoalloc.c:10-12 | from any point of any interleaving, a task's list, counter and results are those of running only its own calls and everybody's strategy switches; a forked task starts with no mapping |
| `Traces.NeverShared` | usr/src/linux-4.1.2/kernel/fork.c:1604-1607 | given that vm_mmap never returns a range overlapping a mapping of the caller's own address space, tasks of one address space never hold overlapping mappings |
| `Traces.HolderIsUnique` | usr/src/linux-4.1.2/kernel/fork.c:1604-1607 | so a store reaches one task's mapping at most |
| `Traces.SpacesByFork` | usr/src/linux-4.1.2/kernel/fork.c:957-976 | a new task shares an address space with an older one iff the fork passes CLONE_VM and the older one shares it with the parent |
| `AddressSpaces.ForkKeepsAlike` | usr/src/linux-4.1.2/kernel/fork.c:957-977 | a fork in the allocator's runs and the copy_process call it stands for agree: the new task has no mapping in either, and tasks share an address space iff they share an mm |
| `AddressSpaces.SpacesAreMms` | usr/src/linux-4.1.2/kernel/fork.c:939-983 | in every state of an allocator run and a copy_process run side by side from boot, two tasks share an address space iff they share an mm |
| `Benchmarks.ShuffleAdds` | home/test6.c:215-236 | the inside-out shuffle keeps every earlier block once and adds the new one |
| `Benchmarks.CoupledBlocks` | home/test6.c:215-241 | coupled client arrays have no address twice, and each entry is a live region with its size |
| `Benchmarks.RequestCoupled` | home/test6.c:222-240 | any request from any coupled state, refused or granted, leaves client and allocator coupled |
| `Benchmarks.ReleaseCoupled` | home/test6.c:250-255 | the client's last block is live, freeing it returns 0, and dropping it keeps the coupling |
| `Benchmarks.Benchmark.Agreement` | home/test6.c:303 | free_space is the allocator's free count plus one header per block, and the array is a duplicate-free permutation of the live blocks |
| `Benchmarks.Benchmark.DrawSize` | home/test6.c:224-225 | the size is the one the draw gives, cut to the client's free counter; without jitter nothing is drawn |
| `Benchmarks.SizesDrawn` | home/test6.c:224 | the expected sizes that draws can give are exactly those from mean minus jitter up to, not including, mean plus jitter |
| `Benchmarks.Benchmark.AllocateOne` | home/test6.c:215-241 | one turn shuffles the new block into the array at the place drawn, or changes no block; it keeps the coupling, counts what it did, and succeeds iff the heap can serve the request |
| `Benchmarks.ShuffledAt` | home/test6.c:218-235 | the new block goes to its place, the block that was there to the end, and no other moves |
| `Benchmarks.Benchmark.TurnDrawn` | home/test6.c:215-241 | place and size of a turn are those of its draws, in their order, and no other number is drawn |
| `Benchmarks.Benchmark.RunAllocations` | home/test6.c:200-245 | the first remainder is always defined; at most the drawn number of blocks is allocated, and true is returned iff it is positive and all were; the remainder in the loop is by zero iff no block is held and the first stale place is positive; from an empty heap a block is held afterwards iff one was drawn and the first fits |
| `Benchmarks.Benchmark.TsoFree` | home/test6.c:252 | may only be called on a live block |
| `Benchmarks.Benchmark.RunDeallocationsDownTo` | home/test6.c:247-259 | frees the array's tail, every address live at the time, and keeps the rest and the coupling |
| `Benchmarks.Benchmark.RunDeallocations` | home/test6.c:267-274 | divides by zero iff the client holds no block; otherwise frees the smaller of the draw and max_deallocs, keeps at least one block, and lowers max_deallocs to its product with the falldown, rounded down |
| `Benchmarks.Benchmark.RunFullDeallocation` | home/test6.c:261-265 | leaves no block, no region, and all space free |
| `Benchmarks.Benchmark.Round` | home/test6.c:334-357 | the loop stops iff the round did not allocate all of a positive number of blocks and max_deallocs is 0 or deallocation after failure is off; only the first round can trap, and exactly when the parameters, two draws and one stale value say; a round that goes on lowers (max_deallocs, MAX_TOTAL_ALLOCS - allocs_size) lexicographically |
| `Benchmarks.Benchmark.RunBenchmark` | home/test6.c:312-367 | terminates; divides by zero iff deallocation after failure is on and the first draw asks for no block or the first block is refused, or the first stale place is positive when a block is asked for; otherwise its last round fell short, max_deallocs is 0 if deallocation after failure is on, and it ends with no region and all space free |
| `Benchmarks.TrapsExactly` | home/test6.c:206-270 | that condition in the expressions of the source |
| `Benchmarks.Benchmark.RunSuite` | home/test6.c:98-118 | each benchmark leaves the empty heap the next one starts from; the suite divides by zero iff one of its benchmarks would |
| `Benchmarks.ShippedParameters` | home/test6.c:98-145 | the parameters of the 24 benchmarks that the shipped program runs, in order |
| `Benchmarks.ShippedTraps` | home/test6.c:167-192 | each of the 24 benchmarks of the shipped program divides by zero iff the first draw is a multiple of 120 or its first stale place is positive |
| `Benchmarks.RunShipped` | home/test6.c:167-198 | so does the program as a whole |
| `Benchmarks.BothOutcomes` | home/test6.c:206-270 | a generator that gives 0 makes the shipped program divide by zero; one that gives 1 does not, unless the first place holds a positive value |
| `Benchmarks.Shrinks` | home/test6.c:273 | the truncated product strictly shrinks a positive limit and keeps 0 |
| `Processes.PutUndoesTake` | usr/src/linux-4.1.2/kernel/fork.c:1617-1628 | dropping a reference just taken restores the table, shared or new object alike |
| `Processes.TakeBalances` | usr/src/linux-4.1.2/kernel/fork.c:939-1073 | counting the new task's reference keeps every count equal to the number of tasks pointing at the object |
| `Processes.ForkRelates` | usr/src/linux-4.1.2/kernel/fork.c:1259-1268 | the flag gate and what each copy step shares put the new task in the sharing relation with every old one |
| `Processes.CopyProcessKeepsInv` | usr/src/linux-4.1.2/kernel/fork.c:1239-1650 | every call keeps counts equal to references and the sharing hierarchy; a new task has no allocator mapping and no other task is changed |
| `Processes.RunKeepsInv` | usr/src/linux-4.1.2/kernel/fork.c:1239-1650 | so does every run of calls from boot |
| `Processes.SharingHierarchy` | usr/src/linux-4.1.2/kernel/fork.c:1496-1508 | in every reachable set of tasks, same signal implies same sighand, which implies same mm; same signal, same leader and same tgid coincide |
| `Processes.CountsAreReferences` | usr/src/linux-4.1.2/kernel/fork.c:1577-1588 | in every reachable state mm_users, fs users, files count and sighand count each equal the number of tasks pointing at the object, which is never 0; nr_threads and the user's process count equal the number of tasks |
| `Processes.SignalsCountThreads` | usr/src/linux-4.1.2/kernel/fork.c:1577-1588 | so do nr_threads, live and sigcnt of every signal |
| `Processes.NewTaskShares` | usr/src/linux-4.1.2/kernel/fork.c:939-1134 | beside any old task: the new one shares its fs, files, sighand, signal, leader, tgid or mm iff the flag for it is passed and the old task shares the parent's; its pid is nobody's |
| `Processes.NewTaskIdentity` | usr/src/linux-4.1.2/kernel/fork.c:1495-1536 | exit_signal, real_parent, group leader and tgid of a new task by the flags, what it holds of its own, and no allocator mapping |
| `Processes.NewTaskSignal` | usr/src/linux-4.1.2/kernel/fork.c:1562-1566 | a new process starts a signal of its own, unkillable iff it reaps its namespace; no old signal changes in that |
| `Processes.AddsOneTask` | usr/src/linux-4.1.2/kernel/fork.c:1239-1650 | one task and one on each counter, or nothing changed, according to the code returned |
| `Processes.NewTaskMm` | usr/src/linux-4.1.2/kernel/fork.c:957-977 | a task forked by one with an mm starts with no allocator mapping, and shares an old task's mm iff the fork passes CLONE_VM and the old task shares the parent's |
| `Forks.Kernel.CheckFlags` | usr/src/linux-4.1.2/kernel/fork.c:1249-1290 | returns -EINVAL iff the flags are one of the refused combinations |
| `Forks.Kernel.CopyFiles` | usr/src/linux-4.1.2/kernel/fork.c:1005-1030 | passes with no files, shared files, or a successful dup_fd, else reports its code; takes one reference or none |
| `Forks.Kernel.CopyFs` | usr/src/linux-4.1.2/kernel/fork.c:985-1003 | -EAGAIN when exec bars sharing, -ENOMEM when the copy fails, else 0; takes one reference or none |
| `Forks.Kernel.CopySighand` | usr/src/linux-4.1.2/kernel/fork.c:1058-1073 | shares or allocates; takes one reference or none |
| `Forks.Kernel.CopySignal` | usr/src/linux-4.1.2/kernel/fork.c:1109-1160 | threads take nothing yet; others get a fresh signal counted once, or nothing |
| `Forks.Kernel.MmPut` | usr/src/linux-4.1.2/kernel/fork.c:686-706 | drops one user and frees the mm with the last |
| `Forks.Kernel.DupMm` | usr/src/linux-4.1.2/kernel/fork.c:904-937 | a fresh mm with one user, or NULL and no mm left behind |
| `Forks.Kernel.CopyMm` | usr/src/linux-4.1.2/kernel/fork.c:939-983 | passes with no mm, a shared mm, or a successful dup_mm, else -ENOMEM; takes one reference or none |
| `Forks.Kernel.CleanupSighand` | usr/src/linux-4.1.2/kernel/fork.c:1075-1085 | undoes exactly what CopySighand took |
| `Forks.Kernel.CleanupMm` | usr/src/linux-4.1.2/kernel/fork.c:1617-1619 | undoes exactly what CopyMm took |
| `Forks.Kernel.FreeTask` | usr/src/linux-4.1.2/kernel/fork.c:1646-1647 | is reached with nothing held, and restores the state before the call |
| `Forks.Kernel.Attach` | usr/src/linux-4.1.2/kernel/fork.c:1557-1588 | exit_signal decides between a leader and a thread, and only a thread is counted in its group's signal |
| `Forks.Kernel.Publish` | usr/src/linux-4.1.2/kernel/fork.c:1495-1607 | from all 14 acquisitions to the specified state, ending with tso_mm NULL |
| `Forks.Kernel.Finish` | usr/src/linux-4.1.2/kernel/fork.c:1444-1616 | this stretch of the ladder returns the first error and then has released exactly what it acquired |
| `Forks.Kernel.CopyShared` | usr/src/linux-4.1.2/kernel/fork.c:1429-1628 | this stretch of the ladder returns the first error and then has released exactly what it acquired |
| `Forks.Kernel.SetUp` | usr/src/linux-4.1.2/kernel/fork.c:1371-1639 | this stretch of the ladder returns the first error and then has released exactly what it acquired |
| `Processes.AdmittedExactly` | usr/src/linux-4.1.2/kernel/fork.c:1249-1556 | no step reports an error iff all listed conditions hold, in no particular order |
| `Processes.FirstFailure` | usr/src/linux-4.1.2/kernel/fork.c:1249-1556 | the code returned is that of the first failing step in the order of the source, each step with its own code |
| `Forks.Kernel.CopyProcess` | usr/src/linux-4.1.2/kernel/fork.c:1239-1650 | returns the code of the first step that fails; on 0 exactly one task and its references are added; after a jump to any label nothing at all is changed; the invariant holds on every exit |
| `VmaCopy.CopiesMeaning` | usr/src/linux-4.1.2/kernel/fork.c:428-452 | the specified child list has no locked and no VM_DONTCOPY area, and has every other parent area |
| `VmaCopy.CopiesExactly` | usr/src/linux-4.1.2/kernel/fork.c:428-452 | the child's j-th area is the parent's j-th area not marked VM_DONTCOPY: same pages, same file, and its flags without VM_LOCKED |
| `VmaCopy.CopiesCharge` | usr/src/linux-4.1.2/kernel/fork.c:433-474 | a child is never charged more than its parent nor holds more references, write denials or shared mappings of any file, and exactly as much when it inherits everything |
| `VmaCopy.HoldsCount` | usr/src/linux-4.1.2/kernel/fork.c:454-471 | each counter of a file or inode is raised by the number of areas that hold it |
| `VmaCopy.CopiesKeepOrder` | usr/src/linux-4.1.2/kernel/fork.c:425-431 | the copy of a list is the copy of its front followed by the copy of its rest |
| `VmaCopy.NoErrorMeans` | usr/src/linux-4.1.2/kernel/fork.c:428-500 | the first error is 0 iff no area reports one |
| `VmaCopy.MmapErrorMeans` | usr/src/linux-4.1.2/kernel/fork.c:418-519 | dup_mmap's code is ksm's, else khugepaged's, else 0 iff no call made for any inherited area fails |
| `VmaCopy.FirstFailingArea` | usr/src/linux-4.1.2/kernel/fork.c:433-519 | the first inherited area with a failing call gives -ENOMEM, or page copying's own code if that alone failed |
| `VmaCopy.LinksAreInverse` | usr/src/linux-4.1.2/kernel/fork.c:484-487 | vm_next and vm_prev are mutually inverse |
| `VmaCopy.Link` | usr/src/linux-4.1.2/kernel/fork.c:484-493 | filling the link that pprev points at extends the double list by one node and counts it |
| `VmaCopy.CopyArea` | usr/src/linux-4.1.2/kernel/fork.c:433-500 | one area: linked, charged and holding its file, or none of these |
| `VmaCopy.DupMmap` | usr/src/linux-4.1.2/kernel/fork.c:390-519 | returns the first error in area order, or 0; at every exit the child is, link by link and doubly linked, the parent's areas seen so far that are not VM_DONTCOPY, each with its pages, its file and its flags without VM_LOCKED; the net charge and the file references, write denials, shared mappings and tree entries taken are those of the areas linked, one reference more being that of exe_file, and total_vm is the parent's less the areas skipped |
| `VmaCopy.ExitMmap` | usr/src/linux-4.1.2/kernel/fork.c:695 | gives back the charge of the listed areas and what they hold of files |
| `VmaCopy.MmPut` | usr/src/linux-4.1.2/kernel/fork.c:686-706 | the last user's mmput gives back every charge and hold that dup_mmap took, exe_file's included |
| `VmaCopy.DupMm` | usr/src/linux-4.1.2/kernel/fork.c:904-937 | a faithful copy that is charged for and holds its areas' files and exe_file, or no copy, no charge and no hold |
| `MaxThreads.FlsBounds` | usr/src/linux-4.1.2/kernel/fork.c:278 | fls64 brackets its argument between powers of two |
| `MaxThreads.GuardDecides` | usr/src/linux-4.1.2/kernel/fork.c:278-282 | when the guard passes, the 64-bit product cannot overflow; when it does not, the true product is at least 2^63 |
| `MaxThreads.IdealMeaning` | usr/src/linux-4.1.2/kernel/fork.c:280-287 | the limit lies in [MIN_THREADS, MAX_THREADS]; above the floor it respects the suggestion and an eighth of RAM; below the ceiling it is the largest that does |
| `MaxThreads.Tunables.SetMaxThreads` | usr/src/linux-4.1.2/kernel/fork.c:270-288 | the guarded 64-bit computation gives exactly the limit of unbounded arithmetic |

## Left out

- Mappings.Mapping.SysAlloc: when the size wraps and only the end of the mapping, less than a header, is left, the
  header would go past the mapping's end; the call reports `outside` and does nothing, as what lies there is unknown.
- Systems.Run: what happens after an unsound allocation, the memory then being described by no region list, or after a
  store into a header or outside the mapping it names.
- Forks.Kernel: kernel objects are table entries named by numbers, so that leaks and use after free show; interior
  pointers and the order of the tasklist are not captured.
- Forks.Kernel.CopyProcess: written as four methods that nest, one ladder of labels in four stretches.
- Forks.Kernel.DupMm: treats `dup_mmap` as one call that may fail; VmaCopy.DupMm opens that call up.
- VmaCopy.DupMmap: page tables, anon_vma chains and the shape of the i_mmap and red-black trees are not modelled, an
  i_mmap tree being the number of its areas; `vm_stat_account` is its effect on `total_vm`.
- VmaCopy.ExitMmap: `exit_mmap` itself is not part of the repository; what it gives back is modelled, unmapping and
  the freeing of areas are not.
- Benchmarks.Benchmark.RunBenchmark: timing, result records, printing, and 32-bit overflow of the statistics counters.
- `__region_end`, `__tso_mm_finalize`, `__tso_mm_expand`, `printk` and `copy_to_user`: unused, stubs or output.
- The user wrappers in `home/tso_lib.c` and `home/tso_lib/tso_lib.c`: thin shims; the benchmark uses only the address.
- Locking, RCU, cgroups, tracing, NUMA policy contents, ptrace, vfork completion, `fork_idle`, `unshare`, process exit.
- Concurrency inside one system call: the source takes no lock, and the model does not interleave two calls.
