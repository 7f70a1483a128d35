# Verified containers and algorithms of easyc

A Dafny model of the generic containers of easyc and of the algorithms on top of them: the open-addressing hash map, the
indexed binary heap, EasySort, the hash functions, the array list, the size-header allocator and the line cursor. Each
container appears twice: as a value with pure operations, about which the theorems are proved, and as a class whose
methods update arrays and fields in place and are proved to do exactly what the pure operation does, call by call and
over whole runs. `dafny verify dfyconfig.toml` checks everything.

## Layout

| file | contents |
|---|---|
| `Bits.dfy` | bytes, powers of two, `&` with a mask |
| `HashTable.dfy` | slots, probing, insertion, growth, removal, the invariant |
| `HashStacks.dfy` | the meaning of a table: for each key the sequence of its live values in probe order |
| `HashRuns.dfy` | runs from the empty table, the plain-map refinement, a key that is live twice, an old value that comes back |
| `HashMap.dfy` | HASHMAP_name as a class |
| `IndexedHeap.dfy` | the heap with handles, its invariant, every operation |
| `HeapRuns.dfy` | the linear bound on build, runs, draining |
| `PriorityQueue.dfy` | PQUEUE_T as a class |
| `StableSort.dfy` | stable sorting, its uniqueness, strip-and-reinsert |
| `EasySort.dfy` | EasySort in place, its cost and its use of the allocator |
| `Allocation.dfy` | the allocator's ledger |
| `ArrayList.dfy` | ARRLIST_T as a class, and runs of its operations |
| `Hashing.dfy` | the mixer and the string fold |
| `LineCursor.dfy` | ez_next_line |

## What holds and what does not

- **The hash map is not a finite map.** `set` stops at the first slot that is not live, a tombstone included, so a key
  can become live twice; `HashRuns.ShadowingHappens` shows a run of five calls after which a removal leaves the
  removed key present. What the table is, in every run, is a map from keys to stacks of values: the searches read the
  top, `remove` pops, a write through the pointer of `ref` changes the top, `set` replaces the top or pushes (it
  pushes exactly when a tombstone precedes the key's first live slot and the table does not grow), and growth keeps of
  each stack the value in the highest-numbered slot. It is a plain finite map throughout a run exactly when no `set`
  of the run pushes (`HashRuns.PlainRuns`), which covers all runs that set only absent keys and all runs with no
  removal since the last growth: growth makes any table plain again (`HashRuns.GrowthMakesPlain`,
  `HashRuns.AfterGrowthIsMap`).
- **Growth can bring back an overwritten value.** It leaves the answer of `get` alone exactly when the top of the
  key's stack is the value in its highest-numbered slot (`HashRuns.GrowthKeepsAnswer`); unless the stack wraps around
  the end of the table it is the bottom, the oldest value, that survives (`HashStacks.GrowthKeepsBottom`).
  `HashRuns.OverwrittenValueComesBack` continues the run above by two `set` calls of other keys, after which `get`
  answers with the value that had been overwritten.
- `clear` leaves `tombstones` as it was: over every run the field counts the removals since the last growth
  (`HashRuns.TombstonesCountRemovals`). The invariant therefore leaves it free while the capacity is 0; the growth
  that the next `set` starts with resets it.
- The load test divides in `double`. `HashTable.LoadTestIsExact` shows that for a power-of-two capacity up to 2^53
  comparing with the double nearest to 0.7 (`HashTable.SevenTenthsIsNearest`) is the integer comparison the model
  uses. The quotient itself is taken to be exact, as it is for counts below 2^53.
- **`insert` into the heap needs its slot.** It overwrites handle `size`, which after a `pop` can still be queued. The
  heap stays sound exactly when that handle is not queued (`IndexedHeap.InsertNeedsFreeSlot`). A run in which, after a
  `pop`, nothing is inserted before the queue has been drained is sound from end to end
  (`HeapRuns.DrainingRunsAreSound`). `HeapRuns.InsertAfterPopLosesPair` shows a pair being lost.
- The heap is not stable, but it moves nothing without need: a handle overtakes strictly costlier ones only
  (`IndexedHeap.SiftUpKeeps`, `IndexedHeap.SiftDownKeeps`), so a new pair of equal cost never becomes the top
  (`IndexedHeap.InsertKeepsTop`).
- `update` on a handle that has been popped or never used passes its assertion whenever the queue is not empty, and
  then changes nothing (`IndexedHeap.UpdateDormant`), because such handles carry index 0 and heap order already holds.
- **`line` counts calls, not lines.** It is the number of lines exactly when no terminated line is longer than the
  buffer (`LineCursor.LineNumbersAreRight`; `LineCursor.LongLineCountsTwice` is a line counted twice). The
  unterminated tail is copied whole; all calls of a reading stay inside the buffer exactly when it fits
  (`LineCursor.AllFitIffTailFits`; `LineCursor.LongTailOverruns` is one that does not).
- The newline index passes through a 32-bit int. A reading delivers what it is meant to exactly when no newline lies
  at byte 2^31 or beyond (`LineCursor.HarmlessIffNewlinesFit`; `LineCursor.FarNewlineIsMissed` is a file with one
  there).
- A piece as long as the buffer leaves no terminating zero (`LineCursor.FullLineHasNoZero`). In a file without zeros
  all buffers of a reading are terminated exactly when every line is shorter than the buffer
  (`LineCursor.TerminatedIffShort` on the pieces, `LineCursor.TerminatedBuffers` and `LineCursor.FileParser.ReadAll`
  on the buffers).
- `zero(list, 0)` leaves a block of 8 bytes behind a capacity of 0, which a following `add` overwrites.
  `ArrayList.Add` states the loss and `ArrayList.ZeroThenAddLosesBlock` runs into it; every other call conserves the
  allocator's total up to the list's own block, and no call touches the block of another list.

Costs and scores are reals, a total order; the score function is pure. `size_t` counters are unbounded naturals
outside hashing; words are naturals below 2^64 with the wrap-around written out. A null `entries`, `list` or `data`
pointer is an empty array. Conditions behind `EZ_FATAL` and `EZ_ASSERT` are preconditions.

## Model

| member | source | states |
|---|---|---|
| Bits.MaskIsMod | include/easyobjects.h:354-357 | masking with 2^k - 1 is the remainder modulo 2^k, for every word |
| HashTable.Home | include/easyobjects.h:353-354 | the home slot is the hash modulo the capacity, and in range |
| HashTable.WalkVisitsEachSlotOnce | include/easyobjects.h:353-358 | from any start, `capacity` probe steps visit every slot exactly once and return to the start |
| HashTable.LoadTestIsExact | include/easyobjects.h:339 | the floating-point load test is the integer test 10(size+tombstones+1) > 7 capacity |
| HashTable.SevenTenthsIsNearest | include/easyobjects.h:339 | the constant stands for the double nearest to 0.7: no other multiple of 2^-53 is as near |
| HashTable.ProbesTerminate | include/easyobjects.h:355-358 | under the load bound both kinds of probe loop stop within `capacity` steps |
| HashTable.StopIsFirst | include/easyobjects.h:355-358 | `set` stops at the first slot that is not live or holds the key |
| HashTable.SeekIsFirst | include/easyobjects.h:369-375 | the searches stop at the first slot that is empty or holds the key |
| HashTable.PutKeepsInv | include/easyobjects.h:353-363 | a non-growing `set` keeps the counters, the load bound and the probe chains |
| HashTable.PutIsFirstFit | include/easyobjects.h:353-363 | a non-growing `set` writes the first slot in probe order that is not live or holds the key, and changes nothing else but `size` when that slot was not live |
| HashTable.Rehash | include/easyobjects.h:339-352 | growth gives a valid table of the doubled capacity with no tombstones that does not need to grow again |
| HashTable.ReinsertionNeverGrows | include/easyobjects.h:346-350 | every recursive `set` of the growth loop finds room, so it never grows |
| HashTable.Set | include/easyobjects.h:338-363 | `set`, growth included, keeps the invariant and leaves a table with slots |
| HashTable.GrowthDoubles | include/easyobjects.h:339-345 | growth doubles the capacity, from 2 on, only under a load that half of it cannot take, and forgets the tombstones |
| HashTable.RemoveKeepsInv | include/easyobjects.h:408-422 | `remove` keeps the counters, the load bound and the probe chains, and `size` was positive |
| HashTable.RemoveMarksFirst | include/easyobjects.h:408-422 | `remove` turns the first slot in probe order that holds the key into a tombstone, counts it, and changes no other slot |
| HashTable.WriteKeepsInv | include/easyobjects.h:394-406 | a write through the pointer of `ref` keeps the counters, the load bound and the probe chains |
| HashStacks.FindSeesHead | include/easyobjects.h:365-406 | the searches find a key exactly when it has a live value, and then the first in probe order |
| HashStacks.PutReplacesOrPushes | include/easyobjects.h:353-363 | a non-growing `set` replaces the head of its key, and pushes exactly when a tombstone comes before the key's first live slot |
| HashStacks.PutFrame | include/easyobjects.h:353-363 | a non-growing `set` leaves the values of every other key alone |
| HashStacks.RemovePops | include/easyobjects.h:408-422 | `remove` pops the head of its key and leaves every other key alone |
| HashStacks.WriteReplacesHead | include/easyobjects.h:394-406 | writing through the pointer of `ref` replaces the head of that key and leaves every other key alone |
| HashStacks.GrowthKeepsBottom | include/easyobjects.h:346-350 | for a key with no live slot below its home, growth keeps the bottom of its stack |
| HashStacks.GrowthKeepsLast | include/easyobjects.h:339-352 | growth keeps every key once with the value of its highest-numbered live slot, and nothing changes for a key live once |
| HashRuns.StepSimulates | include/easyobjects.h:338-429 | each operation leads to exactly one map of stacks: push or replace after growth or not, a write to the top, pop, or empty |
| HashRuns.RunSimulates | include/easyobjects.h:338-429 | every step of every run leads to exactly those stacks |
| HashRuns.PlainSize | include/easyobjects.h:359-419 | `size` is the number of keys exactly when no key is live twice |
| HashRuns.RemovedKeyIsAbsent | include/easyobjects.h:408-422 | a removed key is absent afterwards exactly when it was live once |
| HashRuns.PlainStep | include/easyobjects.h:338-429 | from a plain table an operation gives a plain table exactly when it is not a push |
| HashRuns.PlainRuns | include/easyobjects.h:338-429 | a run stays plain throughout exactly when none of its `set` calls pushes |
| HashRuns.DisciplinedRunIsMap | include/easyobjects.h:338-429 | a run without pushes computes the finite map, with `size` its cardinality |
| HashRuns.AbsentSetsAreDisciplined | include/easyobjects.h:338-429 | runs that set only absent keys never push |
| HashRuns.RunsWithoutRemovalAreDisciplined | include/easyobjects.h:338-429 | without tombstones to start with, runs without removal never push |
| HashRuns.GrowthMakesPlain | include/easyobjects.h:339-352 | whatever came before, a growing `set` leaves a plain table without tombstones, of the same keys and the new one |
| HashRuns.AfterGrowthIsMap | include/easyobjects.h:338-429 | from a growth on, a run without removal computes the finite map, with `size` its cardinality |
| HashRuns.GrowthKeepsAnswer | include/easyobjects.h:346-350 | growth leaves the answer of `get` alone exactly when the top of the stack is the highest-numbered live value |
| HashRuns.OverwrittenValueComesBack | include/easyobjects.h:346-361 | a run after which `get` answers with a value that a later `set` had replaced |
| HashRuns.TableIsAMap | include/easyobjects.h:338-422 | from `{ 0 }`, such runs answer every search as the finite map would |
| HashRuns.CapacityFollowsLoad | include/easyobjects.h:339-342 | over any run, a capacity above 2 is one whose half could not take the largest load a `set` has met since the last `clear` |
| HashRuns.FittedIsLeast | include/easyobjects.h:339-342 | no smaller power of two could take that load |
| HashRuns.CapacityWithoutRemoval | include/easyobjects.h:339-342 | from `{ 0 }` and without removal the capacity is bounded by the number of entries in the same way |
| HashRuns.TombstonesCountRemovals | include/easyobjects.h:345-429 | over any run `tombstones` is the number of removals since the last growth; reusing a slot and `clear` leave it alone |
| HashRuns.GrowthIsARun | include/easyobjects.h:339-352 | a growing `set` is the run of `set` calls for the old entries in slot order and the new one, on zeroed slots twice as many |
| HashRuns.ShadowingHappens | include/easyobjects.h:355-361 | a run of five calls that makes a key live twice, and a removal that leaves it present |
| HashMap.HashMap.Set | include/easyobjects.h:338-363 | the in-place `set`, recursive growth included, performs the table operation and keeps the invariant; the capacity stays or doubles from 2 on |
| HashMap.HashMap.Reinsert | include/easyobjects.h:346-350 | the growth loop, re-entering `set`, rebuilds the table |
| HashMap.HashMap.SlotFor | include/easyobjects.h:353-358 | the probe loop of `set` ends at the slot the table operation writes |
| HashMap.HashMap.Has | include/easyobjects.h:365-377 | TRUE exactly when the key has a live value |
| HashMap.HashMap.Get | include/easyobjects.h:379-392 | the first live value of a present key |
| HashMap.HashMap.Ref | include/easyobjects.h:394-406 | the slot of the first live value, or none exactly when the key is absent |
| HashMap.HashMap.Remove | include/easyobjects.h:408-422 | pops the key's first value, other keys unchanged, invariant kept |
| HashMap.HashMap.Clear | include/easyobjects.h:424-429 | no key has a value any more; `tombstones` stays; the table starts again from nothing |
| HashMap.Store | include/easyobjects.h:394-406 | a store through the pointer `ref` returned performs the table's write in place |
| HashMap.PerformAll | include/easyobjects.h:338-429 | any run of calls and such stores on a map object is the run of the table |
| IndexedHeap.SwapFacts | include/easyobjects.h:475-481 | a swap keeps handles and positions inverse, keeps all pairs and exchanges two costs |
| IndexedHeap.SiftDownRestores | include/easyobjects.h:492-503 | sifting down repairs the one position where order is broken and keeps all pairs |
| IndexedHeap.SiftUpRestores | include/easyobjects.h:483-490 | sifting up repairs the one position where order is broken and keeps all pairs |
| IndexedHeap.SiftUpKeeps | include/easyobjects.h:483-490 | sifting up overtakes strictly costlier ancestors only: equal costs and everything off the path stay |
| IndexedHeap.SiftUpMoves | include/easyobjects.h:483-490 | the exact outcome: the costlier ancestors move one step down the path and the handle takes the place of the topmost |
| IndexedHeap.SiftDownKeeps | include/easyobjects.h:492-503 | sifting down overtakes strictly cheaper handles only: equal costs and everything ahead stay |
| IndexedHeap.SiftDownRaises | include/easyobjects.h:492-503 | a position is filled by the first of itself, its left and its right child that is least |
| IndexedHeap.BuildStoresAll | include/easyobjects.h:460-473 | `build` makes a heap of exactly the given pairs, handle i for the i-th |
| IndexedHeap.BuildKeepsOrder | include/easyobjects.h:460-473 | values in heap order already keep their positions |
| IndexedHeap.BuildKeepsTop | include/easyobjects.h:460-473 | if nothing is cheaper than the first value, it becomes the top |
| IndexedHeap.InsertAdds | include/easyobjects.h:505-520 | with a free slot, `insert` adds one pair under handle `size` and keeps all others; handles stay 0..size if they were |
| IndexedHeap.InsertNeedsFreeSlot | include/easyobjects.h:505-520 | `insert` keeps the heap sound, and gains a pair, exactly when handle `size` is not queued |
| IndexedHeap.InsertKeepsTop | include/easyobjects.h:505-520 | a new pair becomes the top exactly when it is strictly cheaper than the old one |
| IndexedHeap.InsertKeepsPlaces | include/easyobjects.h:505-520 | `insert` moves no handle that is not costlier than the new pair |
| IndexedHeap.TopIsLeast | include/easyobjects.h:534-537 | the root's cost is a minimum of the contents |
| IndexedHeap.PopRemovesRoot | include/easyobjects.h:522-532 | `pop` removes exactly the root and keeps the heap sound |
| IndexedHeap.PopKeepsPlaces | include/easyobjects.h:522-532 | `pop` moves no handle that is not strictly cheaper than the last one |
| IndexedHeap.PopRaises | include/easyobjects.h:522-532 | which handle is the next top, ties included |
| IndexedHeap.UpdateLive | include/easyobjects.h:539-545 | `update` of a queued handle changes that cost and nothing else, whichever way it moves |
| IndexedHeap.UpdateKeepsPlaces | include/easyobjects.h:539-545 | `update` moves no handle whose cost is not strictly passed by the new cost |
| IndexedHeap.UpdateDormant | include/easyobjects.h:539-545 | `update` of a handle that is not queued passes its assertion and changes neither contents nor order |
| HeapRuns.HeightsAddUp | include/easyobjects.h:470-472 | the subtree heights of n nodes add up to n less the ones in the binary form of n |
| HeapRuns.BuildIsLinear | include/easyobjects.h:470-472 | `build` swaps at most `size` times in all, less the binary ones of `size` |
| HeapRuns.DownSwapsBound | include/easyobjects.h:492-503 | a downward sift swaps at most as often as there are levels below its start |
| HeapRuns.CapacityStaysFitted | include/easyobjects.h:506-515 | over any run from empty the capacity is the least power of two, from 2 on, that holds the largest size reached |
| HeapRuns.StepSimulates | include/easyobjects.h:505-545 | each operation is a step of a bag of costed pairs: `insert` adds its pair under the number of pairs queued, `pop` takes a least one, `update` changes one cost or nothing |
| HeapRuns.SoundRuns | include/easyobjects.h:505-545 | a run stays sound throughout exactly when each `insert` finds its slot free, and then simulates the bag |
| HeapRuns.RunsWithoutPopAreSound | include/easyobjects.h:505-545 | before any `pop` the handles stay 0..size, so every `insert` finds its slot free |
| HeapRuns.DrainingRunsAreSound | include/easyobjects.h:505-545 | a run that never inserts between a `pop` and the next moment the queue is empty is sound and simulates the bag |
| HeapRuns.InsertAfterPopLosesPair | include/easyobjects.h:516-517 | an `insert` after a `pop` that overwrites a queued pair |
| HeapRuns.DrainIsSorted | include/easyobjects.h:522-532 | popping until empty yields every stored pair once, by non-decreasing cost |
| HeapRuns.BuildThenDrain | include/easyobjects.h:460-545 | after `build` and any inserts and updates, draining yields exactly the stored pairs in order |
| PriorityQueue.PriorityQueue.Build | include/easyobjects.h:460-473 | the in-place build stores exactly the given pairs in a sound heap within the linear swap bound |
| PriorityQueue.PriorityQueue.Swap | include/easyobjects.h:475-481 | the in-place swap performs the heap operation |
| PriorityQueue.PriorityQueue.HeapU | include/easyobjects.h:483-490 | the loop performs the upward sift, which moves no handle of equal or lower cost |
| PriorityQueue.PriorityQueue.HeapD | include/easyobjects.h:492-503 | the loop performs the downward sift and counts its swaps |
| PriorityQueue.PriorityQueue.Grow | include/easyobjects.h:506-515 | growth keeps nodes and handles and zeroes what it adds |
| PriorityQueue.PriorityQueue.Insert | include/easyobjects.h:505-520 | sound afterwards exactly when the slot was free, and then one pair more; a cost not below that of the top leaves the top |
| PriorityQueue.PriorityQueue.Top | include/easyobjects.h:534-537 | the value of a least pair |
| PriorityQueue.PriorityQueue.Pop | include/easyobjects.h:522-532 | returns the value of a least pair and removes that pair only |
| PriorityQueue.PriorityQueue.Update | include/easyobjects.h:539-545 | changes the cost of a queued handle only, and nothing for any other handle |
| PriorityQueue.PerformAll | include/easyobjects.h:505-545 | a run of calls on a queue object, its inserts finding their slots free, is the run of the heap |
| PriorityQueue.DrainAll | include/easyobjects.h:522-532 | popping a queue object until empty returns the values of all queued pairs, each once, by non-decreasing cost |
| StableSort.StableSortPermutes | include/easysort.h:45-60 | a stable sort of a list is a permutation of it |
| StableSort.StableSortIsUnique | include/easysort.h:45-60 | there is exactly one stable sort |
| StableSort.KeptIsSorted | include/easysort.h:15-24 | what the running-maximum scan keeps is sorted |
| StableSort.KeptBeforeDropped | include/easysort.h:15-43 | for every score, the kept elements of that score followed by the dropped ones are those of the input in order |
| StableSort.InsertBehindIsStable | include/easysort.h:46-59 | upper-bound insertion keeps order and goes behind its equals |
| StableSort.EasySortedIsStableSort | include/easysort.h:10-64 | strip and reinsert computes the stable sort |
| StableSort.DroppedNothingIffSorted | include/easysort.h:15-24 | nothing is dropped exactly when the input is sorted |
| EasySort.Mark | include/easysort.h:12-24 | marks exactly what the scan drops, one score evaluation per element |
| EasySort.DroppedIffCostlierBefore | include/easysort.h:15-24 | an element is marked exactly when a costlier one comes before it |
| EasySort.Displace | include/easysort.h:25-34 | the dropped elements in order, with their scores |
| EasySort.Compact | include/easysort.h:35-43 | closes the gaps in place, writing nothing when there are none |
| EasySort.Search | include/easysort.h:46-52 | the upper bound, within the number of binary digits of the length |
| EasySort.Place | include/easysort.h:46-59 | one round of the reinsertion loop: behind its equals, and never in the growth branch |
| EasySort.Prepare | include/easysort.h:12-26 | borrows three blocks from the allocator and marks what the scan drops |
| EasySort.Extract | include/easysort.h:25-43 | the kept elements stay in the list, the dropped ones are taken out in order with their scores |
| EasySort.Strip | include/easysort.h:12-44 | everything before the reinsertion: kept and dropped elements apart, one borrowed block given back |
| EasySort.Refill | include/easysort.h:45-60 | all rounds of the reinsertion loop, one binary search each |
| EasySort.EasySort | include/easysort.h:10-64 | stable sort in place, same buffer and capacity, at most n + d(floor(log2 n)+2) evaluations, no element moved when sorted; of the allocator, every earlier block is as before and the three borrowed ones are freed |
| Allocation.Memory.Allocate | include/easymemory.c:22-28 | a zeroed block with its header, counted in the total |
| Allocation.Memory.Reallocate | include/easymemory.c:9-20 | each byte of the new block is the old byte at its place, or zero beyond the old block; the total is adjusted |
| Allocation.Memory.Free | include/easymemory.c:30-37 | gives back what the header says; null is ignored |
| Allocation.BlockIsCounted | include/easymemory.c:17-35 | no block exceeds the total, so the subtraction never wraps |
| ArrayList.ArrayList.Zero | include/easyobjects.h:52-57 | that many zero elements in a block of that size, other blocks untouched |
| ArrayList.ArrayList.Add | include/easyobjects.h:59-74 | appends; grown from empty, the capacity stays below twice the peak and a power of two, and regrowth has copied capacity - 1 elements; the total is conserved except for the block of `zero(list, 0)`; other blocks are untouched |
| ArrayList.ArrayList.Insert | include/easyobjects.h:76-93 | inserts at the index by shifting, with the growth, conservation and untouched blocks of `add` |
| ArrayList.ArrayList.Has | include/easyobjects.h:95-99 | TRUE exactly when the element occurs |
| ArrayList.ArrayList.Remove | include/easyobjects.h:101-111 | removes that element, order kept |
| ArrayList.ArrayList.RemoveRange | include/easyobjects.h:42-49 | removes the range, or nothing if it is empty or overlong |
| ArrayList.ArrayList.Get | include/easyobjects.h:113-117 | the element at the index |
| ArrayList.ArrayList.Clear | include/easyobjects.h:119-125 | empty, the allocator's total is down by exactly the list's block, other blocks untouched |
| ArrayList.ArrayList.Wipe | include/easyobjects.h:127-129 | empty, buffer kept |
| ArrayList.GrowthIsAmortized | include/easyobjects.h:59-74 | regrowth has copied fewer elements than twice the peak, and no smaller power of two would do |
| ArrayList.PerformAll | include/easyobjects.h:42-129 | any run of edits from empty refines the sequence, keeps the growth law with the peak of the run, conserves the allocator's total and touches no other block |
| ArrayList.WholeLife | include/easyobjects.h:42-129 | after any run of edits, clearing leaves the allocator's total and all earlier blocks as they were |
| ArrayList.AddToBoth | include/easyobjects.h:59-74 | two lists on one allocator do not disturb each other |
| ArrayList.ZeroThenAddLosesBlock | include/easyobjects.h:52-64 | `zero(list, 0)`, `add` and `clear` leave 8 bytes allocated |
| Hashing.MixIsBijective | include/easyhash.c:3-10 | the mixer is a bijection on 64-bit words with an explicit inverse |
| Hashing.XorBits | include/easyhash.c:4-8 | the xor differs from zero at exactly the digits where its operands differ |
| Hashing.XorShiftBits | include/easyhash.c:4-8 | `x ^= x >> 33` compares each digit with the one 33 places above |
| Hashing.MixMultiplies | include/easyhash.c:3-10 | a word that the first constant takes to k < 2^33 ends as k times the second constant, shifted once more |
| Hashing.HashUint64 | include/easyhash.c:3-10 | the step-by-step code computes the mixer, and its result determines its argument |
| Hashing.ToWordWraps | include/easyhash.c:12-56 | the conversion leaves words alone and adds 2^64 to a negative integer |
| Hashing.KeysNeverShareHash | include/easyhash.c:12-56 | keys of one integer width, signed or not, share a hash only when equal |
| Hashing.FoldInjective | include/easyhash.c:61-62 | one fold step is injective in the state and in the byte |
| Hashing.HashExtends | include/easyhash.c:60-63 | one more byte is xored into the hash of the prefix, and the result multiplied by the prime |
| Hashing.HashOfNone | include/easyhash.c:59 | the hash of the empty string is the offset constant |
| Hashing.SuffixCollision | include/easyhash.c:58-66 | with a common suffix, hashes collide exactly when the prefix hashes do |
| Hashing.OneByteDiffers | include/easyhash.c:58-66 | strings of equal length that differ in one byte hash differently |
| Hashing.HashString | include/easyhash.c:58-66 | the loop folds the bytes before the terminating zero, xor first and multiplication second |
| LineCursor.NewlineIsFirst | include/easyfile.c:133-139 | the scan finds the first newline |
| LineCursor.PiecesRebuildFile | include/easyfile.c:130-155 | the pieces with the newlines they consumed concatenate back to the file |
| LineCursor.LineIsCut | include/easyfile.c:146-154 | a terminated line of length L gives max(1, ceil(L/size)) pieces, none empty unless the line is |
| LineCursor.LineThenRest | include/easyfile.c:130-155 | after the pieces of a line come those of the next |
| LineCursor.CallsAddUp | include/easyfile.c:130-155 | the number of calls is the sum over the lines, plus one for a non-empty tail |
| LineCursor.LineNumbersAreRight | include/easyfile.c:140 | `line` counts lines exactly when no terminated line is longer than the buffer |
| LineCursor.LongLineCountsTwice | include/easyfile.c:140-150 | a line of two characters read through a buffer of one counts twice |
| LineCursor.AllFitIffTailFits | include/easyfile.c:141-145 | every call stays inside the buffer exactly when the unterminated tail fits it |
| LineCursor.LongTailOverruns | include/easyfile.c:141-145 | an unterminated tail of two characters overruns a buffer of one |
| LineCursor.TerminatedIffShort | include/easyfile.c:132-152 | in a file without zeros every piece leaves room for a zero exactly when every line is shorter than the buffer |
| LineCursor.BuffersHoldText | include/easyfile.c:132-152 | the text in the buffers of a reading, with the consumed newlines, is the text of its pieces |
| LineCursor.TerminatedBuffers | include/easyfile.c:132-152 | that condition on the pieces of a reading holds exactly when every buffer it fills contains a zero |
| LineCursor.FullLineHasNoZero | include/easyfile.c:141-152 | a line of one character fills a buffer of one and leaves no zero |
| LineCursor.SmallIndexIsExact | include/easyfile.c:133-152 | below 2^31 a call delivers the piece it is meant to, and copies in bounds exactly when an unterminated tail fits |
| LineCursor.ToIntWraps | include/easyfile.c:136 | the conversion of the index to an int wraps modulo 2^32 |
| LineCursor.WrappedIndex | include/easyfile.c:141-150 | what a call delivers when the newline's index wraps to before the cursor |
| LineCursor.HarmlessIffNewlinesFit | include/easyfile.c:133-152 | a whole reading delivers what it is meant to exactly when no newline lies at 2^31 or beyond |
| LineCursor.FarNewlineIsMissed | include/easyfile.c:133-145 | a file whose only newline lies at byte 2^31: the first call takes it for an unterminated tail |
| LineCursor.EmptyBufferSteps | include/easyfile.c:133-152 | a call in bounds with a buffer of size 0 moves past one newline or leaves the cursor where it is |
| LineCursor.EmptyBufferSticks | include/easyfile.c:133-152 | reading with a buffer of size 0 comes to the end exactly when only newlines are left |
| LineCursor.FileParser.constructor | include/easyfile.c:126-128 | a cursor at the start of the file, at line 0 |
| LineCursor.FileParser.NextLine | include/easyfile.c:130-155 | for any file and buffer size, when the copies stay in bounds: each byte of the buffer is the byte of the next piece at its place, or zero beyond it; the cursor and the line number move |
| LineCursor.FileParser.FindNewline | include/easyfile.c:133-139 | the index of the first newline, truncated to an int, or -1 |
| LineCursor.FileParser.ReadAll | include/easyfile.c:130-155 | calling until FALSE terminates; the text in the buffers, with the consumed newlines, is the rest of the file; in a file without zeros each buffer contains a zero exactly when every line is shorter than it |

## Left out

- The raw bytes of keys and elements: comparing bytes is equality of values, copying bytes is copying values; padding is not modelled.
- The bytes of the size header: the header is a field beside the bytes of its block.
- NaN costs and scores, and score functions with side effects.
- Overflow of `size_t` counts, of `amount * size` and of the swap and evaluation counters.
- The allocator's view of the hash map and of the heap; only the array list and EasySort are tied to the ledger.
- HashMap.HashMap.Ref: returns the slot instead of a pointer into it; a store through the pointer is modelled right after the call, a pointer kept across other calls is not.
- `IMPL_ARRLIST_NAMED` and `IMPL_ARR_ARRLIST`, which repeat the algorithms of `IMPL_ARRLIST`.
- Sockets, threads, clocks, logging, profiling and the number parsers.
- The rest of easyfile: loading, directory walking and file types.
