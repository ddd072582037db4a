# Verified model of the doost libraries

A Dafny 4.11 model of four parts of doost, with proofs for all inputs, all schedules and all histories.
`dafny verify dfyconfig.toml` checks everything.

**Parallel memcpy pool** (`Memcpy*.dfy`). One caller and N workers that coordinate through `start_generation`, one
`completed_generation` per worker, `stopping`, and atomic wait and notify. The threads become a step machine: every
atomic load, store, wait and notify is one event, and so is every byte of every memcpy, so workers interleave in the
middle of a chunk. A wait parks only if the value is still the old one, checked atomically, and may wake up spuriously
(section 31.6 of ISO/IEC 14882:2020). The counters wrap at an arbitrary modulus of at least 2. `MemcpyMachine` is the
machine: `CallerNext` follows `start_workers`, `copy` and `stop_workers` line by line, with the chunk loop in `AssignStep`
and the waiting loop in `AwaitStep`; `WorkerMove` follows `worker_loop`; `Woken` and `CallerWoken` are `notify_all` and
`notify_one`. `MemcpyInvariant` and `MemcpyPreservation` are its invariant, `MemcpyRefinement` the proof that the pool
implements one memcpy per call, `MemcpySafety` ownership, wakeups and shutdown, `MemcpyProgress` and `MemcpyFairness`
termination, and `MemcpyChunks` the chunk loop as it works on the array.

**One-bit counted strings** (`OwnerHeap.dfy`, `OwnerHeapProperties.dfy`, `StringHistory.dfy`, `StringOrder.dfy`,
`StringPrinting.dfy`, `BubbleSort.dfy`, `CString.dfy`). `String` and `Block` are classes with the fields of the original
(the tagged pointer as a block and a bit). Each operation changes at most two neighbours; the invariant `Heap.Valid` is
about the whole heap: ghost lists of owners that pointers, links and bits must agree with. `StringHistory` runs arbitrary
command sequences against a model that merely records which variable refers to which block. `BubbleSort` is the sort of
the string benchmark on this heap.

**Downward pools** (`Bits.dfy`, `PoolLayout.dfy`, `SequentialPool.dfy`, `NonblockingPool.dfy`). 64-bit words with explicit
wrap-around, bitwise masks proved equal to rounding, the guard layout with the branches of making a mapping
(`PoolLayout.MakeStorage`), the sequential pool as a class, and the lock-free pool as a machine whose allocation is two
steps: the atomic subtraction, and later the address.

**List** (`NodeList.dfy`, `ListHistory.dfy`, `ListStorage.dfy`). Heap nodes, allocators as arenas that know which nodes
are out, and an environment that decides which creations throw. An arena may take its nodes from a sequential pool.
`ListHistory` runs arbitrary programs over many lists and allocators against a model on plain sequences. `ListStorage`
fills a list whose allocator is a pool made for it.

## Where the code and its documentation differ

The model follows the code.

- README.md line 170 of the repository says that small copies use plain memcpy. The code has no such threshold
  (src/parallel_memcpy.cpp, lines 86-94), and neither has the model: only size 0 and zero workers are special.
- `usable_bytes` subtracts one page, whatever the size of the guard. `UsableBytesIff` gives the exact condition under
  which it nevertheless reports the rounded request, `UsableBytesFails` a pool for which it does not.
- `round_up` wraps. `RoundUpIff` gives the exact condition under which it rounds up, `RoundUpWraps` an input for which it
  does not; `LayoutCoversIff` says what that means for the pool, and `LayoutFails` gives a pool too small for its request.

## Assumptions

- One thread calls `copy`, construction and destruction; source and target of a copy do not overlap (unless it is empty).
- Steps of the threads are sequentially consistent. Under that assumption `RaceFree` shows that plain data is accessed
  by one owner at a time; whether the release and acquire orders of the code suffice for it is not part of this model.
- `CopyReturns` and `ShutdownCompletes` need no fairness, and speak about schedules from a point on after which no
  spurious wakeup occurs. `CopyReturnsFairly` and `ShutdownCompletesFairly` allow any number of them at any time, and
  need weak fairness: no thread that could go on from some time on waits forever.
- The system returns page-aligned, non-null, non-wrapping mappings, and a page is a power of two of at least 16 bytes
  (`PoolLayout.Sensible`; `PoolLayout.OrdinaryPool` meets it). Whether mapping or protecting fails is a parameter.
- What element constructors and allocations throw, and what they leave in a moved-from element, is a parameter.
- Characters are compared by their codes, as strcmp compares bytes: as unsigned values.
- Every node belongs to one list, and every String to one heap. An arena stands for all allocators that refer to the
  same resource.

## Model

| member | source | states |
|---|---|---|
| `MemcpyRefinement.PoolRefinesMemcpy` | src/parallel_memcpy.cpp:86-131 | For every number of workers, every counter modulus >= 2 and every schedule with any number of copies of any size, 0 included: whenever no copy is open, memory and the returned pointer are those of a sequential machine that performs each copy in one go at the call |
| `MemcpyRefinement.RunSimulates` | src/parallel_memcpy.cpp:86-177 | In every reachable state, mid-copy included, memory agrees with that sequential machine except on target bytes that their worker still has to write |
| `MemcpyRefinement.NextSimulates` | src/parallel_memcpy.cpp:86-177 | One step of any thread, down to one byte of one memcpy, keeps that agreement |
| `MemcpySafety.CopyDelivers` | src/parallel_memcpy.cpp:86-131 | Seen from one call of any size after an arbitrary history: when it has returned, the target range equals the source, and the source and every byte outside the target are as they were; the result is dst |
| `MemcpySafety.SequentialCopies` | src/parallel_memcpy.cpp:86-94 | The sequential machine is memcpy: it moves exactly the source range, nothing if that is empty, and returns dst |
| `MemcpySafety.EmptyCopyReturns` | src/parallel_memcpy.cpp:87-89 | A copy of size 0 is over at the call: it returns dst, memory is what it was and the caller is idle again |
| `MemcpySafety.IdleAccepts` | src/parallel_memcpy.cpp:86-94 | Between copies every call is possible that memcpy allows: any pointers for size 0, otherwise any two ranges of memory that do not overlap |
| `MemcpySafety.Constructed` | src/parallel_memcpy.cpp:69-80 | For every number of workers there is a schedule that constructs the pool with that many threads, so that what is said about reachable states is said about every pool |
| `MemcpySafety.OneMemcpyPerCopy` | src/parallel_memcpy.cpp:114-177 | Each worker has begun exactly as many memcpys as parallel copies were announced, less one while it still owes the latest: none skipped, none repeated, although the counters wrap |
| `MemcpySafety.EveryCallAnnounced` | src/parallel_memcpy.cpp:86-117 | Every call with at least one byte is announced to the workers exactly once if there are any; a call of size 0 never is, and without workers none is |
| `MemcpySafety.GenerationCounts` | src/parallel_memcpy.cpp:114-136 | In every reachable state start_generation is the number of announcements modulo the counter size, one more once shutdown has announced itself |
| `MemcpySafety.DebtStep` | src/parallel_memcpy.cpp:114-177 | Conservation behind it: per step and worker, memcpys begun plus debt changes exactly by the copies announced |
| `MemcpySafety.CompletedWithinOne` | src/parallel_memcpy.cpp:35-46 | completed_generation equals start_generation or is exactly one behind it modulo the counter size, and equals it whenever no copy is open and shutdown has not begun |
| `MemcpySafety.RaceFree` | src/parallel_memcpy.cpp:96-177 | In no reachable state can two different threads both access the same WorkerState fields or the same byte, one of them writing; covers chunk assignment, the workers' reads, every copied byte, the client between calls and the release of worker_states |
| `MemcpySafety.WritesCoverChanges` | src/parallel_memcpy.cpp:96-177 | The list of writes RaceFree speaks of is complete: no event changes a byte or the fields of a WorkerState that it is not listed to write |
| `MemcpySafety.ReadsCoverMemory` | src/parallel_memcpy.cpp:96-177 | So is the list of reads of memory: a byte an event is listed neither to read nor to write can have any value without changing what the event does |
| `MemcpySafety.SingleOwner` | src/parallel_memcpy.cpp:101-116 | A worker that has observed a generation and not yet published is working on its chunk of the open copy; while the caller assigns, every worker is complete |
| `MemcpySafety.NoLostWakeup` | src/parallel_memcpy.cpp:117-129 | A thread is parked on a value that has changed only while the notification belonging to that change is still to be executed |
| `MemcpyProgress.NoDeadlock` | src/parallel_memcpy.cpp:86-177 | While a copy, construction or shutdown is under way some thread has an enabled step other than a spurious wakeup |
| `MemcpyProgress.StepLowers` | src/parallel_memcpy.cpp:86-177 | Every step of the program lowers one lexicographic measure of program counters, bytes left and position in the wait |
| `MemcpyProgress.CopyReturns` | src/parallel_memcpy.cpp:119-131 | Every copy returns under every schedule that keeps running some runnable thread; no fairness between threads is needed |
| `MemcpyProgress.ShutdownCompletes` | src/parallel_memcpy.cpp:133-148 | Every shutdown ends with the worker states released, also after a start_workers that failed part-way |
| `MemcpyFairness.CopyReturnsFairly` | src/parallel_memcpy.cpp:119-131 | Every copy returns under every weakly fair schedule, with any number of spurious wakeups at any time |
| `MemcpyFairness.ShutdownCompletesFairly` | src/parallel_memcpy.cpp:133-148 | So does every shutdown complete |
| `MemcpyFairness.TickLowers` | src/parallel_memcpy.cpp:86-177 | No step and no spurious wakeup raises the measure, and there is always one thread whose next step lowers it and which stays that thread until then |
| `MemcpySafety.ShutdownSafe` | src/parallel_memcpy.cpp:133-170 | From the store of stopping on no worker is inside or before a memcpy; the states are released only when every thread ever created has returned; threads exist exactly for the spawned indices |
| `MemcpySafety.NoCopyAfterStop` | src/parallel_memcpy.cpp:133-172 | After stopping is stored no event changes memory and no worker begins a memcpy |
| `MemcpyPreservation.NextKeepsInv` | src/parallel_memcpy.cpp:69-177 | Every enabled step keeps the global invariant: generations, phases, ownership of chunks, wakeups |
| `MemcpyPreservation.ReachableInv` | src/parallel_memcpy.cpp:69-177 | The invariant holds after every schedule, for any number of workers and any modulus >= 2 |
| `MemcpyInvariant.ChunksTile` | src/parallel_memcpy.cpp:96-112 | Every target byte lies in the chunk of exactly one worker, also with fewer bytes than workers |
| `MemcpyInvariant.ChunksAdjacent` | src/parallel_memcpy.cpp:96-112 | Chunks follow each other from the first target byte to the last, with source and target shifted alike |
| `MemcpyInvariant.ChunkSizes` | src/parallel_memcpy.cpp:96-112 | Every worker but the last gets size / workers bytes, the last the remainder as well |
| `MemcpyChunks.AssignChunks` | src/parallel_memcpy.cpp:96-112 | The loop over the array of worker states gives every worker its chunk of the tiling; offset and the last size do not go below zero |
| `MemcpyChunks.ChunksMakeTheCopy` | src/parallel_memcpy.cpp:96-112 | Copying the chunks one after the other is one memcpy of the whole range |
| `MemcpyPreservation.AssignKeeps` | src/parallel_memcpy.cpp:101-112 | After the iteration for index, the workers up to index hold their chunks of the tiling |
| `MemcpyPreservation.AwaitKeeps` | src/parallel_memcpy.cpp:119-129 | The caller moves on from a worker only when that worker has completed the current generation, and returns only when all have |
| `MemcpyPreservation.WorkerMoveOk` | src/parallel_memcpy.cpp:150-177 | A step of worker_loop leaves the worker with a generation that is current or one behind, and copying only what it owns |
| `StringHistory.Run` | src/string.cpp:43-204 | After any sequence of constructions, copies, moves, assignments, swaps, resets and destructions over any number of Strings: a bit is set iff no other String refers to that block, Strings share blocks exactly as a model that only records references says, every block holds the text it was made with, and the freed blocks are exactly those without a reference |
| `StringHistory.Step` | src/string.cpp:43-204 | One operation takes a heap that represents the reference model to one that represents the model's next state, with no block left without an owner |
| `OwnerHeapProperties.UniqueIffSoleOwner` | src/string.cpp:132-204 | In every valid heap the one-bit counter is right: the bit is set iff the String is the only owner of its block |
| `StringHistory.BitCounts` | include/doost/string.hpp:149-151 | unique() agrees with counting references in the model |
| `OwnerHeapProperties.WalkVisitsOwners` | src/string.cpp:132-244 | Following next_ from first visits exactly the Strings tagged with the block, once each, and stops; following previous_ from the last visits the same ones in reverse |
| `OwnerHeapProperties.ListIsTagged` | src/string.cpp:132-190 | A String is in the owner list of a block iff its pointer refers to that block |
| `OwnerHeapProperties.FreedIffUnowned` | src/string.cpp:173-185 | A block is freed iff no String refers to it any more |
| `StringHistory.FreedCounts` | src/string.cpp:173-185 | The freed blocks are those the reference model no longer mentions |
| `OwnerHeapProperties.ListsDetermineFields` | src/string.cpp:132-204 | Pointer, bit and both links of every String are determined by the owner lists alone |
| `OwnerHeap.String.Attach` | src/string.cpp:132-150 | Puts the String at the head of the block's list and keeps the heap valid, touching one neighbour |
| `OwnerHeap.String.Detach` | src/string.cpp:152-190 | Takes the String out of its list, sets the bit of an owner left alone, frees the block with its last owner, and keeps the heap valid |
| `OwnerHeap.String.ReplaceOwner` | src/string.cpp:228-244 | Redirects the two links (or first) that lead to one list position, and nothing else |
| `OwnerHeap.String.Swap` | src/string.cpp:95-123 | Exchanges the two Strings' blocks, bits and list positions, also for neighbours in one list; no third String changes block or bit |
| `OwnerHeapProperties.SwapTwice` | src/string.cpp:95-123 | Swapping twice restores every owner list, and with ListsDetermineFields every field |
| `OwnerHeapProperties.SwapKeepsOrder` | src/string.cpp:95-123 | A swap keeps every list's length and every third String's position |
| `OwnerHeap.String.MoveFrom` | src/string.cpp:192-204 | The moved-to String takes the other's list position and bit; the other becomes null |
| `OwnerHeap.String.MakeBlock` | src/string.cpp:206-218 | A new block without owners holding the characters and a terminator |
| `OwnerHeap.String.FromText` | src/string.cpp:43-47 | null gives a null String, anything else a sole owner of a new block with the text up to the terminator |
| `OwnerHeap.String.FromView` | src/string.cpp:49-51 | A sole owner of a new block with exactly the viewed characters |
| `OwnerHeap.String.Copy` | include/doost/string.hpp:121-123 | One more owner, at the head of the list of the source's block |
| `OwnerHeap.String.Move` | include/doost/string.hpp:125-127 | The new String takes the source's place in its list |
| `OwnerHeap.String.Destroy` | src/string.cpp:53-55 | The destructor leaves the list and the set of live Strings |
| `OwnerHeap.String.AssignText` | src/string.cpp:57-66 | The String becomes sole owner of a new block with the given text as it was before the call, also when the text lies in a block this assignment frees |
| `OwnerHeap.String.AssignView` | src/string.cpp:68-72 | The same for a view |
| `OwnerHeap.String.AssignCopy` | src/string.cpp:74-83 | Leaves one list and heads the other; nothing changes between owners of one block |
| `OwnerHeap.String.AssignMove` | src/string.cpp:85-93 | Leaves its list and takes the other's place, also when both are neighbours in the same list; self-assignment changes nothing |
| `OwnerHeap.String.Reset` | include/doost/string.hpp:133-135 | The String becomes null and leaves its list |
| `StringOrder.LessIsStrictWeakOrder` | include/doost/string.hpp:175-212 | operator< is a strict weak order with null first, whose incomparable pairs are exactly those operator== calls equal; operator== is transitive |
| `StringOrder.ComparisonsByKey` | include/doost/string.hpp:175-212 | Both comparisons are comparisons of null or the text up to the first NUL, in the order that LexLessIff describes |
| `CString.StrCmpMeans` | include/doost/string.hpp:211 | strcmp is negative iff there is a first difference at which the first text ends or has the smaller character, and 0 iff the texts before the terminators are equal |
| `CString.LexLessIff` | include/doost/string.hpp:211 | The lexicographic order, upwards: a common prefix after which one text ends or has the smaller character |
| `CString.StrCmpIsLex` | include/doost/string.hpp:211 | The sign of strcmp is that order of the texts before the terminators |
| `BubbleSort.BubbleSort` | benchmark/string_benchmark.cpp:65-78 | The vector ends up in operator< order and rearranged stably: entries (block and bit) with equal keys keep their order; Strings outside keep block and bit; the number of unique Strings is unchanged |
| `BubbleSort.BubblePass` | benchmark/string_benchmark.cpp:71-76 | One pass puts the largest remaining entry in its final place and rearranges stably |
| `BubbleSort.CompareAndSwap` | benchmark/string_benchmark.cpp:72-75 | Two neighbouring entries trade places iff the right one is less; all other Strings of the heap keep block and bit |
| `BubbleSort.StableSortUnique` | benchmark/string_benchmark.cpp:65-78 | Sorted and stably rearranged leaves no freedom: the result of bubble_sort is the one such sequence |
| `BubbleSort.StableIsPermutation` | benchmark/string_benchmark.cpp:65-78 | A stable rearrangement keeps every (block, bit) pair with its multiplicity |
| `BubbleSort.CountUnique` | benchmark/string_benchmark.cpp:80-88 | The result is the number of indices whose String is not null and unique |
| `BubbleSort.UniqueCountIsCardinality` | benchmark/string_benchmark.cpp:80-88 | What the loop counts is the cardinality of that set of indices |
| `BubbleSort.UniqueCountMultiset` | benchmark/string_benchmark.cpp:80-88 | The count depends only on which entries there are, not on their order |
| `StringPrinting.PrintEscaped` | src/string.cpp:17-40 | Appends the escaped text of the characters before the terminator |
| `StringPrinting.EscapeReversible` | src/string.cpp:17-40 | Reading escaped text stops exactly at the quote put after it and recovers the text: no unescaped quote inside, nothing lost |
| `StringPrinting.EscapeLiterals` | src/string.cpp:20-34 | The five escapes, character for character |
| `StringPrinting.EscapeOrdinary` | src/string.cpp:35-37 | A text without characters to escape is written as it is |
| `StringPrinting.EscapeConcat` | src/string.cpp:17-40 | Escaping a concatenation is concatenating the escaped parts, so that the two lemmas before fix the output for every text |
| `StringPrinting.NoControlCharacters` | src/string.cpp:17-40 | No line break, carriage return or tab is left in the output, whatever the text |
| `StringPrinting.Print` | src/string.cpp:246-255 | Writes the whole printed form |
| `StringPrinting.ShowReversible` | src/string.cpp:246-255 | A parser recovers the unique bit, null or not, and the text from the printed form |
| `StringPrinting.ShowInjective` | src/string.cpp:246-255 | Different bit, nullness or text print differently |
| `StringPrinting.ShowNullLiteral` | src/string.cpp:246-255 | The printed form of a null String, literally |
| `StringPrinting.ShowSharedLiteral` | src/string.cpp:246-255 | The printed form of a shared text with a line break, literally |
| `StringPrinting.ShowUniqueLiteral` | src/string.cpp:246-255 | The same for a unique one |
| `Bits.MaskIsMod` | include/doost/detail/downward_pool_storage.hpp:33-34 | x & ~(a - 1) on 64-bit words is x - x mod a for every power of two a, proved from the bitwise definition |
| `PoolLayout.AlignCursorMeans` | include/doost/detail/downward_pool_storage.hpp:30-35 | Without wrap-around, the aligned cursor is the highest aligned address with enough bytes below the old cursor |
| `PoolLayout.AlignCursorExact` | include/doost/detail/downward_pool_storage.hpp:30-35 | For every request, wrapping included: the difference on a machine word, rounded down to a multiple of the alignment |
| `PoolLayout.RoundUpIff` | src/downward_pool_storage.cpp:232-236 | round_up returns the next multiple iff value + multiple does not exceed the word size; otherwise it returns 0 |
| `PoolLayout.RoundUpWraps` | src/downward_pool_storage.cpp:232-236 | A request for which rounding up to a page gives 0 |
| `PoolLayout.LayoutCoversIff` | src/downward_pool_storage.cpp:240-277 | The mapping holds the requested bytes above the guard iff rounding the request did not wrap, and a page-aligned guard of at least max_alloc_size bytes iff rounding that did not wrap; the overflow test of the sum does not see either |
| `PoolLayout.MakeStorageIff` | src/downward_pool_storage.cpp:240-277 | Which of the four outcomes it is: length_error iff the sum of the rounded sizes does not fit a word, failed mmap or mprotect iff the system fails there, otherwise the mapping with its guard below exactly the rounded request |
| `PoolLayout.UsableBytesIff` | src/downward_pool_storage.cpp:279-291 | usable_bytes reports the rounded request iff the guard is one page (1 <= max_alloc_size <= page), or nothing was mapped |
| `PoolLayout.UsableBytesAre` | src/downward_pool_storage.cpp:279-291 | What usable_bytes reports for any pool: the mapped bytes less one page, and 0 if fewer than a page are mapped |
| `PoolLayout.TwoPageGuard` | src/downward_pool_storage.cpp:279-291 | With a guard of two pages, whatever their size, usable_bytes reports a page too many |
| `PoolLayout.UsableBytesFails` | src/downward_pool_storage.cpp:279-291 | A concrete pool that reports 8192 usable bytes where 4096 were asked for |
| `PoolLayout.LayoutFails` | src/downward_pool_storage.cpp:240-277 | A concrete request for which a pool is made that does not hold it |
| `SequentialPool.DownwardPool.Allocate` | include/doost/downward_pool.hpp:50-56 | Returns the highest aligned address with enough bytes below the old cursor; the cursor stays inside the mapping iff the block starts there, for an aligned mapping iff enough bytes are left in it |
| `SequentialPool.AllocateAll` | include/doost/downward_pool.hpp:50-56 | A pool that serves a sequence of requests returns exactly the addresses the history lemmas speak about |
| `SequentialPool.DownwardPool.Reset` | include/doost/downward_pool.hpp:58-60 | The cursor returns to the end of the mapping, which makes a mapped pool usable again |
| `SequentialPool.DownwardPool.MoveFrom` | include/doost/downward_pool.hpp:72-78 | Storage and cursor change hands; the source is left empty |
| `SequentialPool.DownwardPool.Used` | include/doost/detail/downward_pool_storage.hpp:37-45 | The distance from the cursor to the end of the mapping while the cursor is inside it; 0 without a mapping, with a cursor of 0 and with a cursor at or above the end |
| `SequentialPool.BlocksDisjoint` | include/doost/downward_pool.hpp:50-56 | In every history of requests without wrap-around, all blocks are aligned, below the start, and each later block ends at or below every earlier one |
| `SequentialPool.GuardCatches` | src/downward_pool_storage.cpp:245-264 | With requests up to max_alloc_size and alignments up to a page: as long as all earlier blocks fitted, the next one does not wrap and does not start below the guard, so the first that does not fit starts inside it |
| `NonblockingPool.ReservationMeans` | include/doost/nonblocking_downward_pool.hpp:57-64 | A reservation is a multiple of 16 that holds the bytes and the padding, and the smallest such multiple |
| `NonblockingPool.ReservationExact` | include/doost/nonblocking_downward_pool.hpp:57-64 | For every request, wrapping included: the sum on a machine word, rounded down to a multiple of 16 |
| `NonblockingPool.BlockInsideReservation` | include/doost/nonblocking_downward_pool.hpp:66-71 | The returned block is the highest aligned one with enough bytes below the value fetch_sub returned, and inside its own reservation, although its address is computed after the atomic step |
| `NonblockingPool.BlocksDisjoint` | include/doost/nonblocking_downward_pool.hpp:53-72 | For any number of threads and any interleaving of their two steps: the cursor stays 16-byte aligned and any two returned blocks are aligned, below the top and disjoint |
| `NonblockingPool.ReachableInv` | include/doost/nonblocking_downward_pool.hpp:53-72 | Reservations are consecutive, each is returned at most once, and each thread holds at most its own |
| `NonblockingPool.EveryReservationOnce` | include/doost/nonblocking_downward_pool.hpp:53-72 | For any threads and any interleaving: every reservation has been returned, once, or is held by exactly one thread that has not returned yet; none is lost |
| `NonblockingPool.UsedIsReserved` | include/doost/nonblocking_downward_pool.hpp:86-90 | used_bytes is the sum of all reservations, returned or not, iff the cursor has not come down to 0, which the code reads as no pool |
| `NonblockingPool.GuardCatches` | include/doost/nonblocking_downward_pool.hpp:53-72 | For any threads, any interleaving and any requests up to max_alloc_size with alignments up to 16, in the order of the atomic steps: as long as every earlier block fitted above the guard, no step up to this one wraps, and this block is aligned and fits or starts inside the guard, never below the mapping |
| `NonblockingPool.GuardedRuns` | include/doost/nonblocking_downward_pool.hpp:53-72 | So under a guard no schedule of such requests wraps before the first block that does not fit, and BlocksDisjoint applies to it |
| `NodeList.CreateNode` | include/doost/list.hpp:291-303 | A throwing allocation or construction leaves no node out; otherwise one new constructed node, at the address the pool gave; the pool's cursor goes down by one node unless the allocation itself throws |
| `NodeList.DestroyNode` | include/doost/list.hpp:305-308 | Needs a live node of this allocator that holds an element, and takes both away: so no node can be destroyed twice or by another allocator |
| `NodeList.List.EmplaceFront` | include/doost/list.hpp:202-215 | Prepends, with one creation; if that throws, list, values and the nodes out of the allocator are unchanged; a pool is asked for one node, which a throwing constructor does not give back |
| `NodeList.List.PopFront` | include/doost/list.hpp:217-226 | Throws iff empty; otherwise removes the first value and gives back exactly its node |
| `NodeList.List.Clear` | include/doost/list.hpp:228-235 | Destroys every node of the list once and gives back exactly those |
| `NodeList.List.ReleaseNodes` | include/doost/list.hpp:238-241 | Forgets the nodes without touching the allocator |
| `NodeList.List.CopyFrom` | include/doost/list.hpp:310-325 | Throws iff one of the creations it needs throws; then exactly what was built is destroyed; otherwise the same values in fresh nodes of this allocator; the source stays as it was |
| `NodeList.List.CopyNodes` | include/doost/list.hpp:312-320 | The loop with its tail pointer: the values so far are a prefix of the source, in fresh nodes, and it stops at the first creation that throws |
| `NodeList.List.Append` | include/doost/list.hpp:316-318 | Writing through the tail pointer extends the chain at its end |
| `NodeList.List.AssignCopy` | include/doost/list.hpp:163-171 | Self-assignment changes nothing; a throw leaves head, values and allocator unchanged; otherwise the source's values in fresh nodes, the old nodes given back; the source stays as it was |
| `NodeList.List.Move` | include/doost/list.hpp:154-157 | Takes all nodes and the allocator; the source is left empty |
| `NodeList.List.MoveValuesFrom` | include/doost/list.hpp:327-342 | Like copy_from, and after a throw the source keeps its nodes: elements before the one that threw are moved from, those after it untouched, and it itself untouched if allocating threw |
| `NodeList.List.MoveNodes` | include/doost/list.hpp:329-336 | The loop: the values so far are a prefix of the source's old values, and exactly those elements have been moved from |
| `NodeList.List.AssignMove` | include/doost/list.hpp:173-196 | All three branches give the target the source's old values and leave the source empty, with every node given back to the allocator it came from; only unequal, non-propagating allocators can throw, and then the target is unchanged |
| `NodeList.List.SwapNodes` | include/doost/list.hpp:349-353 | Exchanges the chains and sizes, not the allocators |
| `NodeList.List.StealNodesFrom` | include/doost/list.hpp:344-347 | Takes over chain and size and leaves the source empty |
| `ListHistory.Run` | include/doost/list.hpp:138-235 | After any program over any number of lists and allocators, whichever creations throw: exactly the commands throw that a model on plain sequences says, the lists hold the values and use the allocators that it says, down to what a throwing move leaves of each element, every list is an acyclic chain of length size_, no node is in two lists, and the nodes out of each allocator are exactly those in its lists |
| `ListHistory.RunToTheEnd` | include/doost/list.hpp:159-161 | No leak: once the remaining lists are destroyed, every allocator has all its memory back |
| `ListHistory.Step` | include/doost/list.hpp:138-235 | One command takes the variables, the allocators and the count of creations from one state of the model to the next, and throws iff the model says so; the balance between lists and allocators is kept |
| `ListHistory.FaultFree` | include/doost/list.hpp:138-235 | In a program in which no creation fails only pop_front on an empty list throws |
| `ListHistory.LeftBehindAt` | include/doost/list.hpp:327-342 | What a throwing move leaves, element by element: moved-from before the one that threw, that one moved from in part if its constructor threw and untouched if allocating did, and the rest untouched |
| `ListHistory.Rebalanced` | include/doost/list.hpp:163-235 | An operation that accounts for the nodes of the lists it touches keeps the balance of all lists and allocators |
| `ListHistory.SharesAfterMove` | include/doost/list.hpp:173-196 | Each of the three branches of move assignment, and an exception, moves exactly the right nodes in and out of every allocator |
| `NodeList.AllFineIff` | include/doost/list.hpp:310-342 | The condition under which copying n elements succeeds: none of the next n creations fails |
| `NodeList.AttemptsUntil` | include/doost/list.hpp:310-342 | How many creations are begun: all of them, or those up to and including the first that fails |
| `NodeList.List.CopyOf` | include/doost/list.hpp:168 | The copy that assignment makes: the source's values in fresh nodes of the target's allocator, or a throw that leaves the allocator as it was; both lists stay as they were |
| `NodeList.List.MovedFrom` | include/doost/list.hpp:188-189 | The same for the list of moved values |
| `NodeList.ChainSplit` | include/doost/list.hpp:310-325 | A chain splits at every node and joins again: what writing through the tail pointer relies on |
| `ListStorage.RequiredStorage` | include/doost/list.hpp:283-288 | Throws iff n * node_size does not fit a word, and otherwise is that product |
| `ListStorage.StorageIsExact` | include/doost/list.hpp:283-288 | The history of n requests for a node on a fresh pool made from required_storage(n) does not wrap, goes to end - node_size, end - 2 * node_size, ...: aligned, above the guard, and the pool reports exactly the required bytes as used |
| `ListStorage.OneMoreDoesNotFit` | include/doost/list.hpp:283-288 | When the nodes fill their pages, one node more starts inside the guard |
| `ListStorage.FilledList` | include/doost/list.hpp:202-215 | A pool made from required_storage(n), a list whose allocator takes its nodes from it, and n pushes: the list has the n values, the pool reports exactly n * node_size bytes as used, and the nodes lie one below the other from the end of the mapping, aligned, disjoint and above the guard |
| `ListStorage.PushAll` | include/doost/list.hpp:202-215 | Any sequence of pushes over a pool, up to the first exception: where each node is and how far the cursor has come down, also when a constructor throws after its allocation |
| `ListStorage.NodesOnPool` | include/doost/downward_pool.hpp:50-56 | The addresses of n pushed nodes, in list order: end - n * node_size upwards without gaps |

## Left out

- Memory orders weaker than sequential consistency.
- Concurrent callers of one `ParallelMemcpyPool`, the default pool and `default_thread_count`: the code does not coordinate callers, and the others ask the platform.
- A worker's evaluation of its three memcpy arguments and the caller's assignment of them are one step each; `RaceFree` shows that nobody else touches the fields meanwhile.
- The tag arithmetic of `TaggedBlockPointer`: block and bit are two fields, so that a block's address is even is not modelled.
- `operator==` with a `std::string_view`, `value`, `view`, `size`, `empty`, `c_str` and the trace of released strings.
- A `std::bad_alloc` thrown by `make_block` while a String is constructed or assigned.
- NodeList.List.AssignMove: the moved-from allocator of the propagating branch is taken to stay what it was, as for allocators that refer to a resource.
- NonblockingPool.GuardCatches: not stated for alignments above 16, nor is GuardedRuns, because padding can move the cursor below the guard boundary before any returned block is there.
- SequentialPool.BlocksDisjoint: assumes that no request exceeds the cursor, since the code subtracts without a test; GuardCatches shows that the guard makes this true.
- NonblockingPool.BlocksDisjoint: assumes likewise that neither the size computation nor the subtraction wraps; GuardedRuns shows that the guard makes this true.
- ListStorage.StorageIsExact: for requests whose rounding to a page does not wrap; `PoolLayout.LayoutCoversIff` shows that beyond that the pool does not hold what was asked for.
- `reset`, `release`, `move_from` and the assignment of `NonblockingDownwardPool`, which are not meant to run beside allocations.
- The guard registry, the signal handlers and the report they print.
- `mmap`, `mprotect` and `munmap` themselves, and reading the page size.
- `MutexDownwardPool`, the allocator wrappers and the pool variants: forwarding.
- The addresses of nodes on the heap.
- ListHistory.Run: its commands do not include `release_nodes`, which abandons nodes on purpose, nor the move constructor, which `NodeList.List.Move` states by itself.
- List iterators, `front`, `empty`, `size` and the copy constructors' choice of allocator.
- src/safe_memory.cpp: signal jumps and fault delivery.
- Benchmarks apart from `bubble_sort` and `count_unique`, and all timing.
