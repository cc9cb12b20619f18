# BezOS kernel core in Dafny

A model of the core of the BezOS kernel and its support code, with proofs about it. Each Dafny module follows one source file or one cluster of them:

- **Address ranges and allocators**: the half-open range algebra (`range.hpp`) and the range-list allocator (`range_allocator.hpp`). The page-table free list (`table_allocator.cpp`) and the TLSF heap (`detail/tlsf.hpp`, `heap.cpp`) are here too, with the heap's block list as a value. So are the reference-counted physical memory manager (`pmm.cpp`), the boot memory map (`physical.cpp`) and the layout helpers (`layout.hpp`).
- **Containers**: `StaticFlatMap`, `FixedSizeDeque`, the growable `Vector2`, and the B-tree map. The B-tree map is covered at two levels. Its array nodes (`btree.hpp`, `btree_map.hpp`) are classes over arrays. Its `insert`, `remove`, `contains` and `find` are modelled on a value tree.
- **Paging and hardware registers**: x86-64 page-table entries and the PAT choice of the page builder (`arch/paging.hpp`, `memory/paging.hpp`). Also the local APIC and I/O APIC register encodings (`apic.cpp`) and the DR6/DR7 breakpoint registers (`arch/debug.hpp`).
- **Firmware tables**: ACPI discovery and the MADT walk (`acpi.cpp`), the AML byte cursor and name literal (`aml.hpp`), and SMBIOS entry points and string sets (`smbios.cpp`).
- **Scheduling**: the status machine of a scheduler entry and the per-CPU queue (`scheduler_queue.cpp`).
- **Utilities**:
  - UUID parsing and variant fields (`uuid.hpp`);
  - integer formatting (`format.hpp`);
  - the kernel's `<chrono>` calendar arithmetic (`cxx_chrono.hpp`);
  - odd-width integers (`digit.hpp`);
  - the tar filesystem's header parsing (`tarfs.cpp`);
  - `strtol` and `abs` of the system library (`stdlib.cpp`);
  - the string and status helpers of the package build tool (`tool/package/main.cpp`).

Code that mutates objects in place is modelled as classes with `modifies` frames. Pure code is modelled as functions with lemmas. Each method is proved against a specification function. Properties that relate several calls are stated as lemmas: round trips, order, coverage, and "nothing else changes". Some source behaviour looks unintended. For each such case, the model keeps a member for the code as written and a lemma that exhibits the difference. The corrected member is the one the rest of the model uses. These are listed under "## Findings".

Fixed-width integer arithmetic is written out explicitly where it matters: `uint32_t` cursors, 64-bit checksums, signed `char` sums and the 16-bit `year`. Hardware I/O, clocks, allocation failure and calls into code outside the model are parameters of the model or are left out, as listed below.

## Model

| member | source | states |
|---|---|---|
| Util.RoundUp | sources/kernel/include/util/util.hpp:17-19 | a multiple of the alignment at least the value, less than one alignment above it |
| Util.RoundDown | sources/kernel/include/util/util.hpp:22-24 | a multiple of the alignment at most the value, less than one alignment below it |
| Util.RoundUpIsLeast | sources/kernel/include/util/util.hpp:17-19 | no multiple of the alignment at least the value lies below `roundup` |
| Util.RoundDownIsGreatest | sources/kernel/include/util/util.hpp:22-24 | no multiple of the alignment at most the value lies above `rounddown` |
| Util.RoundUpMatchesDivision | sources/kernel/include/util/util.hpp:17-19 | `roundup` is `(value + multiple - 1) / multiple * multiple` |
| Util.RoundDownMatchesDivision | sources/kernel/include/util/util.hpp:22-24 | `rounddown` is `value / multiple * multiple` |
| Ranges.Of | sources/common/include/common/range.hpp:222-225 | `of(front, size)` is a valid range that starts at `front` and holds `size` bytes |
| Ranges.ShareAreaIff | sources/common/include/common/range.hpp:59-61 | two ranges share a byte exactly when the larger front lies below the smaller back |
| Ranges.DisjointIff | sources/common/include/common/range.hpp:94-98 | disjointness on the bounds is the absence of a shared byte, and it is symmetric |
| Ranges.DisjointSubrange | sources/common/include/common/range.hpp:67-69 | a range contained in `a` is disjoint from every range `a` is disjoint from |
| Ranges.ContainsIsSubset | sources/common/include/common/range.hpp:63-69 | `contains(range)` holds exactly when every byte of the other range is a byte of this one |
| Ranges.OverlapsMeaning | sources/common/include/common/range.hpp:71-76 | the corrected `overlaps` holds exactly when the ranges share a byte and neither lies strictly inside the other, and it is symmetric |
| Ranges.TouchingRangesAreDisjoint | sources/common/include/common/range.hpp:88-98 | ranges that only touch neither overlap nor intersect, in either order and for both readings |
| Ranges.InteriorSubsetDoesNotOverlap | sources/common/include/common/range.hpp:71-83 | a range strictly inside another overlaps it in neither order, under both readings of `overlaps` |
| Ranges.OverlapsAsWrittenDiffers | sources/common/include/common/range.hpp:78-83 | `overlaps` as written equals the documented relation except that it also accepts a range ending at this range's front and rejects an enclosing range that shares the back |
| Ranges.OverlapsAsWrittenCounterexamples | sources/common/include/common/range.hpp:78-83 | [0x1000,0x2000) "overlaps" [0,0x1000) with no byte shared, and the answer for [0x2000,0x3000) against [0x1000,0x3000) depends on the order |
| Ranges.IntervalUnaffectedByOverlapsFix | sources/common/include/common/range.hpp:321-324 | `interval` gives the same answer with either reading of `overlaps` |
| Ranges.IntersectsMeaning | sources/common/include/common/range.hpp:86-93 | the corrected `intersects` holds exactly when the ranges share a byte, and it is symmetric |
| Ranges.IntersectsAsWrittenMissesEnclosure | sources/common/include/common/range.hpp:94-98 | as written, [0x2000,0x3000) does not intersect the enclosing [0x1000,0x4000) although the reverse question answers true and they share bytes |
| Ranges.IntervalIffNoGap | sources/common/include/common/range.hpp:321-324 | `interval` holds for two valid ranges exactly when no gap separates them |
| Ranges.Cut | sources/common/include/common/range.hpp:185-200 | without an overlap the range comes back unchanged; with one, the result holds exactly the bytes of this range outside `other`, except when `other` shares the front and reaches past, where it is the part of `other` beyond this range |
| Ranges.Intersection | sources/common/include/common/range.hpp:256-265 | the result holds exactly the bytes in both ranges, is `{}` when it is empty, and is the inner range when one contains the other |
| Ranges.IntersectionEmptyIffDisjoint | sources/common/include/common/range.hpp:256-265 | the intersection is empty exactly when the ranges share no byte |
| Ranges.Merge | sources/common/include/common/range.hpp:268-271 | `merge` is the smallest range containing both |
| Ranges.MergeOfIntervalIsUnion | sources/common/include/common/range.hpp:268-271 | merging two ranges related by `interval` adds no byte that was in neither |
| Ranges.MergeAllBounds | sources/common/include/common/range.hpp:326-337 | the fold of `merge` contains every range and starts at some range's front and ends at some range's back |
| Ranges.CombinedInterval | sources/common/include/common/range.hpp:326-337 | `combinedInterval` is `{}` for no ranges and otherwise the fold of `merge` over them |
| Ranges.Aligned | sources/common/include/common/range.hpp:348-359 | `aligned` is valid, `{}` when empty, and otherwise an aligned range inside the input |
| Ranges.AlignedIsLargest | sources/common/include/common/range.hpp:348-359 | `aligned` is empty exactly when no aligned block of `align` bytes fits, and otherwise reaches every aligned address of the range |
| Ranges.AlignedOut | sources/common/include/common/range.hpp:367-373 | `alignedOut` is the smallest aligned range containing the input |
| Ranges.SplitAt | sources/common/include/common/range.hpp:382-389 | the two halves meet at `midpoint`, the second is non-empty, and together they hold exactly the range's bytes |
| Ranges.SplitAround | sources/common/include/common/range.hpp:403-410 | the halves keep the range's outer ends, lie either side of `other`, and with `other` hold exactly the range's bytes |
| RangeAllocation.SortRanges | sources/kernel/include/memory/range_allocator.hpp:16-22 | the sorted free list is ordered by front and is a permutation of the input |
| RangeAllocation.PermutationKeepsCover | sources/kernel/include/memory/range_allocator.hpp:16-22 | reordering the free list changes neither the free addresses nor the validity of its ranges |
| RangeAllocation.PermutationKeepsDisjoint | sources/kernel/include/memory/range_allocator.hpp:16-22 | reordering the free list keeps its ranges pairwise disjoint |
| RangeAllocation.MergeFollowing | sources/kernel/include/memory/range_allocator.hpp:41-48 | the inner merge loop keeps the prefix, keeps the list sorted and the free addresses the same, and leaves `rs[i]` strictly before every later range |
| RangeAllocation.MergeRanges | sources/kernel/include/memory/range_allocator.hpp:30-54 | after sorting, dropping empty ranges and merging, the list is in merged normal form (sorted, separated, non-empty) and covers exactly the input's addresses |
| RangeAllocation.MergedIsSeparated | sources/kernel/include/memory/range_allocator.hpp:30-54 | a merged list is strictly increasing, pairwise disjoint, and no two of its ranges are `interval`-related either way round |
| RangeAllocation.MarkUsedStep | sources/kernel/include/memory/range_allocator.hpp:67-100 | one pass of the `MarkUsedArea` loop body keeps the ranges valid and the index within the list |
| RangeAllocation.MarkSplitDisjoint | sources/kernel/include/memory/range_allocator.hpp:82-89 | the split step keeps the loop invariant and strictly lowers the count of later ranges that contain `used` |
| RangeAllocation.MarkCutKeeps | sources/kernel/include/memory/range_allocator.hpp:90-98 | the cut step keeps the loop invariant and leaves the later ranges alone |
| RangeAllocation.EmptyUsedSplitsLast | sources/kernel/include/memory/range_allocator.hpp:82-89 | with an empty `used` at 0x2000 the last piece `[0x2000, 0x3000)` is split into an empty piece and itself, appended after the index |
| RangeAllocation.MarkUsedAreaEmptyNeverEnds | sources/kernel/include/memory/range_allocator.hpp:64-101 | reserving the empty range at 0x2000 out of `[0x1000, 0x3000)` leaves the index short of the end after any number of passes |
| RangeAllocation.MarkUsedArea | sources/kernel/include/memory/range_allocator.hpp:64-101 | afterwards the list is valid and pairwise disjoint, no range shares an address with `used`, and an address is free exactly when it was free before and lies outside `used` |
| RangeAllocation.SplitOut | sources/kernel/include/memory/range_allocator.hpp:121-125 | handing `taken` out of `rs[k]` keeps the list valid and disjoint and lowers the free total by the size of `taken` |
| RangeAllocation.SplitOutCovers | sources/kernel/include/memory/range_allocator.hpp:121-125 | exactly the addresses of `taken` stop being free |
| RangeAllocation.HandedOutFacts | sources/kernel/include/memory/range_allocator.hpp:105-132 | after an allocation the list is valid and disjoint, exactly the handed-out addresses stop being free, they were free before, and the free total drops by their size |
| RangeAllocation.AllocateSpaceAligned | sources/kernel/include/memory/range_allocator.hpp:105-132 | the first range with room for `size` bytes at an `align`-aligned address gives up that block; without one the list is unchanged and the empty range is returned |
| RangeAllocation.FirstContainingIs | sources/kernel/include/memory/range_allocator.hpp:147-160 | the first index whose range contains the request is the one `FirstContaining` names |
| RangeAllocation.ClaimRangeIfAvailable | sources/kernel/include/memory/range_allocator.hpp:144-164 | a request inside a free range is handed out of the first such range; otherwise the list is unchanged and the empty range is returned |
| RangeAllocation.FitDistanceIsLeast | sources/kernel/include/memory/range_allocator.hpp:178-184 | moving `other` by `FitDistance` puts it inside `range` when it fits, and no shorter move does |
| RangeAllocation.ScanTake | sources/kernel/include/memory/range_allocator.hpp:216-230 | a candidate strictly closer than the best so far (or than `INTPTR_MAX` when none) becomes the closest among the ranges seen |
| RangeAllocation.ScanKeep | sources/kernel/include/memory/range_allocator.hpp:216-230 | any other range leaves the closest candidate so far in place |
| RangeAllocation.ClosestIsUnique | sources/kernel/include/memory/range_allocator.hpp:216-230 | at most one range is the closest candidate |
| RangeAllocation.CandidateHolds | sources/kernel/include/memory/range_allocator.hpp:216-225 | the hint moved into a candidate's aligned part lies inside that range |
| RangeAllocation.ScanForHint | sources/kernel/include/memory/range_allocator.hpp:197-231 | the scan stops at the first range containing the hint; otherwise it returns the closest candidate and the hint moved into it, or reports that none exists |
| RangeAllocation.AllocateSpaceHint | sources/kernel/include/memory/range_allocator.hpp:190-244 | the hint itself when a free range contains it, else the hint moved into the closest candidate, else the empty range with the list unchanged |
| RangeAllocation.HintRange | sources/kernel/include/memory/range_allocator.hpp:254-258 | the hint range is valid, starts at the hint and holds `size` bytes |
| RangeAllocation.AllocateFrom | sources/kernel/include/memory/range_allocator.hpp:288-295 | a request without a hint takes the first fitting aligned block, one with a hint goes through the hint search |
| RangeAllocation.RangeAllocator.constructor | sources/kernel/include/memory/range_allocator.hpp:274-276 | a new allocator's free list is exactly the given range |
| RangeAllocation.RangeAllocator.Reserve | sources/kernel/include/memory/range_allocator.hpp:278-282 | reserving removes exactly the addresses of `range` from the free list and leaves it sorted |
| RangeAllocation.RangeAllocator.Allocate | sources/kernel/include/memory/range_allocator.hpp:288-295 | the handed-out range was free, its addresses stop being free, and the free total drops by its size |
| RangeAllocation.RangeAllocator.AllocateSize | sources/kernel/include/memory/range_allocator.hpp:284-286 | `size` bytes at the front of the first range large enough, or the empty range with nothing changed |
| RangeAllocation.RangeAllocator.Release | sources/kernel/include/memory/range_allocator.hpp:297-302 | releasing adds the addresses of `range` back and leaves the free list merged |
| FlatMaps.LowerBound | sources/kernel/include/std/container/static_flat_map.hpp:148 | `std::lower_bound`: the first index whose key is not below `key`; every earlier key is below it |
| FlatMaps.UpperBound | sources/kernel/include/std/container/static_flat_map.hpp:240-244 | `std::upper_bound`: the first index whose key is above `key`; no earlier key is above it |
| FlatMaps.MaxKeyCountFits | sources/kernel/include/std/container/static_flat_map.hpp:30-32 | `computeMaxKeyCount` is the largest entry count whose `computeRequiredStorage` fits in the storage |
| FlatMaps.MaxKeyCountOfRequired | sources/kernel/include/std/container/static_flat_map.hpp:95-97 | storage sized by `computeRequiredStorage(capacity)` gives exactly `capacity` back |
| FlatMaps.LowerBoundIs | sources/kernel/include/std/container/static_flat_map.hpp:148 | an index with every earlier key below `key` and its own key not below it is the lower bound |
| FlatMaps.UpperBoundIs | sources/kernel/include/std/container/static_flat_map.hpp:240-244 | an index with every earlier key not above `key` and its own key above it is the upper bound |
| FlatMaps.LowerBoundOfSorted | sources/kernel/include/std/container/static_flat_map.hpp:148-149 | in sorted keys the lower bound separates the keys below `key`, and `key` is present exactly when it sits at the lower bound (the equality test of `insert`, `remove` and `find`) |
| FlatMaps.IndexOfSorted | sources/kernel/include/std/container/static_flat_map.hpp:149-151 | in strictly sorted keys every position is the first occurrence of its key |
| FlatMaps.InsertKeepsSorted | sources/kernel/include/std/container/static_flat_map.hpp:156-165 | placing an absent key at its lower bound keeps the keys strictly sorted |
| FlatMaps.RemoveKeepsSorted | sources/kernel/include/std/container/static_flat_map.hpp:185-191 | removing an entry keeps the keys strictly sorted |
| FlatMaps.ValueOfAt | sources/kernel/include/std/container/static_flat_map.hpp:201-210 | the value found for the key at position `j` is the value at position `j` |
| FlatMaps.UpdateValueOf | sources/kernel/include/std/container/static_flat_map.hpp:149-153 | overwriting the value of an existing key remaps that key and no other |
| FlatMaps.InsertValueOf | sources/kernel/include/std/container/static_flat_map.hpp:156-165 | inserting a new entry at the lower bound maps its key to its value and leaves every other key's value alone |
| FlatMaps.RemoveValueOf | sources/kernel/include/std/container/static_flat_map.hpp:185-191 | removing the entry at `i` unmaps its key and leaves every other key's value alone |
| FlatMaps.UpdateLookups | sources/kernel/include/std/container/static_flat_map.hpp:149-153 | the update rule for every key at once |
| FlatMaps.InsertLookups | sources/kernel/include/std/container/static_flat_map.hpp:156-165 | the insertion rule for every key at once |
| FlatMaps.RemoveLookups | sources/kernel/include/std/container/static_flat_map.hpp:185-191 | the removal rule for every key at once |
| FlatMaps.SearchLowerBound | sources/kernel/include/std/container/static_flat_map.hpp:148 | the binary search returns the lower bound of the first `n` keys |
| FlatMaps.SearchUpperBound | sources/kernel/include/std/container/static_flat_map.hpp:241 | the binary search returns the upper bound of the first `n` keys |
| FlatMaps.FlatMap.Empty | sources/kernel/include/std/container/static_flat_map.hpp:45-51 | a default map is valid, empty and has capacity 0 |
| FlatMaps.FlatMap.constructor | sources/kernel/include/std/container/static_flat_map.hpp:58-66 | a map over `size` bytes is empty with capacity `computeMaxKeyCount(size)`, which is at least 1 |
| FlatMaps.FlatMap.Clear | sources/kernel/include/std/container/static_flat_map.hpp:128-130 | clearing leaves no entries and every lookup fails, and keeps the storage |
| FlatMaps.FlatMap.Insert | sources/kernel/include/std/container/static_flat_map.hpp:143-168 | a full map answers `OutOfMemory` and is unchanged, even for a present key; otherwise `Success`, with a present key's value replaced in place or a new key inserted in sorted position |
| FlatMaps.FlatMap.Place | sources/kernel/include/std/container/static_flat_map.hpp:156-165 | the new entry goes in at `index`, the later entries move up one and the count grows by one |
| FlatMaps.FlatMap.Remove | sources/kernel/include/std/container/static_flat_map.hpp:179-194 | `NotFound` exactly when the key is absent, with nothing changed; otherwise `Success` and only that key's entry is removed |
| FlatMaps.FlatMap.Erase | sources/kernel/include/std/container/static_flat_map.hpp:185-191 | the entry at `index` goes, the later entries move down one and the count drops by one |
| FlatMaps.FlatMap.Find | sources/kernel/include/std/container/static_flat_map.hpp:201-210 | the value stored under `key`, present exactly when the key is in the map |
| FlatMaps.FlatMap.LowerBoundIndex | sources/kernel/include/std/container/static_flat_map.hpp:246-250 | the position that splits the keys below `key` from the rest |
| FlatMaps.FlatMap.UpperBoundIndex | sources/kernel/include/std/container/static_flat_map.hpp:240-244 | the position that splits the keys not above `key` from the rest |
| FlatMaps.ShiftUp | sources/kernel/include/std/container/static_flat_map.hpp:158-161 | the slots `(index, count]` take the entries from one below, every other slot is unchanged |
| FlatMaps.ShiftDown | sources/kernel/include/std/container/static_flat_map.hpp:186-189 | the slots `[index, count - 1)` take the entries from one above, every other slot is unchanged |
| Deques.Slot | sources/kernel/include/std/fixed_deque.hpp:108 | the ring slot `index` places after the back is below the capacity |
| Deques.SlotIsMod | sources/kernel/include/std/fixed_deque.hpp:108 | that slot is `(mBack + index) % capacity()` |
| Deques.ReadSlot | sources/kernel/include/std/fixed_deque.hpp:104-110 | an index within the count reads its ring slot, any other index reads slot 0 |
| Deques.ReadPastEndAsWritten | sources/kernel/include/std/fixed_deque.hpp:105 | with one element in a two-slot ring, `get(1)` as written reads slot 1, which holds no element and is not the fallback slot 0 |
| Deques.Deque.constructor | sources/kernel/include/std/fixed_deque.hpp:22-28 | a new deque is empty with capacity `size` |
| Deques.Deque.AddFront | sources/kernel/include/std/fixed_deque.hpp:39-49 | `false` exactly when full, with nothing changed; otherwise `e` joins at the front and the count grows by one |
| Deques.Deque.PopFront | sources/kernel/include/std/fixed_deque.hpp:53-67 | `false` exactly when empty; otherwise the front element goes and the count drops by one |
| Deques.Deque.AddBack | sources/kernel/include/std/fixed_deque.hpp:70-86 | `false` exactly when full, with nothing changed; otherwise `e` joins at the back and the count grows by one |
| Deques.Deque.PopBack | sources/kernel/include/std/fixed_deque.hpp:89-101 | `false` exactly when empty; otherwise the back element goes and the count drops by one |
| Deques.Deque.Get | sources/kernel/include/std/fixed_deque.hpp:104-110 | the element `index` places from the back, or slot 0 for an index out of range |
| Deques.Deque.Front | sources/kernel/include/std/fixed_deque.hpp:152 | the front element of a non-empty deque |
| Deques.Deque.Back | sources/kernel/include/std/fixed_deque.hpp:153 | the back element of a non-empty deque |
| Deques.Deque.PollFront | sources/kernel/include/std/fixed_deque.hpp:140-144 | returns the front element and removes it |
| Deques.Deque.PollBack | sources/kernel/include/std/fixed_deque.hpp:146-150 | returns the back element and removes it |
| Vectors.Vector.constructor | sources/kernel/include/std/vector.hpp:52-57 | a default vector has no storage and no elements |
| Vectors.Vector.WithCapacity | sources/kernel/include/std/vector.hpp:59-64 | a vector made with `capacity` has that capacity and no elements |
| Vectors.Vector.Clear | sources/kernel/include/std/vector.hpp:130-133 | no elements are left and the storage stays |
| Vectors.Vector.ReserveExact | sources/kernel/include/std/vector.hpp:147-179 | a request below the capacity succeeds with nothing changed; a failed allocation answers `OutOfMemory` with nothing changed; otherwise the elements move to fresh storage of exactly `size` slots |
| Vectors.Vector.Reserve | sources/kernel/include/std/vector.hpp:135-137 | on success the capacity is at least `size`, the elements are kept, and the capacity never shrinks |
| Vectors.Vector.EnsureExtra | sources/kernel/include/std/vector.hpp:22-28 | `OutOfMemory` exactly when `count + extra` reaches the capacity and the allocation fails; on success there is room for `extra` more elements |
| Vectors.Vector.Resize | sources/kernel/include/std/vector.hpp:181-195 | shrinking keeps the first `size` elements; growing appends default values or fails with `OutOfMemory` and nothing changed |
| Vectors.Vector.Add | sources/kernel/include/std/vector.hpp:252-259 | appends `value`, or answers `OutOfMemory` with the vector unchanged |
| Vectors.Vector.AddRange | sources/kernel/include/std/vector.hpp:261-270 | appends all of `src`, or answers `OutOfMemory` with the vector unchanged |
| Vectors.Vector.Pop | sources/kernel/include/std/vector.hpp:272-275 | the last element goes and the rest stay |
| Vectors.Vector.Insert | sources/kernel/include/std/vector.hpp:290-300 | `value` goes in at `index` with the later elements one place up, or `OutOfMemory` with the vector unchanged |
| Vectors.Vector.Remove | sources/kernel/include/std/vector.hpp:302-308 | the element at `index` goes and the later elements move one place down |
| Vectors.Vector.EraseValue | sources/kernel/include/std/vector.hpp:316-321 | removes the first element equal to `value`, and changes nothing when there is none |
| Vectors.Vector.EraseRange | sources/kernel/include/std/vector.hpp:323-330 | the elements at `[first, last)` go and the count drops by `last - first` |
| Vectors.CopyInto | sources/kernel/include/std/vector.hpp:266 | the slots from `at` on hold `src`, every other slot is unchanged |
| Vectors.MoveDown | sources/kernel/include/std/vector.hpp:306 | the `n` slots from `dst` take the elements from `src`, every other slot is unchanged |
| Vectors.MoveUp | sources/kernel/include/std/vector.hpp:295 | the slots `(lo, hi]` take the elements from one below, every other slot is unchanged |
| TableAllocators.SumSizesCons | sources/kernel/src/memory/table_allocator.cpp:204-217 | a block pushed at the head adds its size to the free total |
| TableAllocators.FreeBlocksMeasureMemory | sources/kernel/src/memory/table_allocator.cpp:249-261 | for whole blocks the `freeBlocks` count `stats` reports, times the block size, is the free memory |
| TableAllocators.SplitBlock | sources/kernel/src/memory/table_allocator.cpp:4-22 | the block shrinks by `size` and a new block of `size` bytes at its tail is linked right after it; the rest of the list and the free total are unchanged |
| TableAllocators.SplitKeepsSum | sources/kernel/src/memory/table_allocator.cpp:4-22 | replacing a block by two whose sizes add up to its own keeps the free total |
| TableAllocators.SplitThenRemove | sources/kernel/src/memory/table_allocator.cpp:54-56 | unlinking the new tail right after the split leaves only the shrunk block in its place |
| TableAllocators.VerifiedRangeIsWhole | sources/kernel/src/memory/table_allocator.cpp:107-111 | a range `VerifyMemoryRange` accepts is a non-zero whole number of blocks |
| TableAllocators.CanAllocateBlocks | sources/kernel/src/memory/table_allocator.cpp:85-98 | true exactly when the list is non-empty and its sizes sum to at least `size` |
| TableAllocators.PrefixSumBelowTotal | sources/kernel/src/memory/table_allocator.cpp:85-98 | a prefix of the free list never holds more than the whole list |
| TableAllocators.PageTableAllocator.Create | sources/kernel/src/memory/table_allocator.cpp:113-127 | `Success` exactly when `VerifyMemoryRange` accepts, with one free block spanning the range; otherwise `InvalidInput` with nothing changed |
| TableAllocators.PageTableAllocator.AllocateBlock | sources/kernel/src/memory/table_allocator.cpp:34-58 | nothing for a zero size, an empty list or a head smaller than `size`, with the list unchanged; an exact fit unlinks the head; a larger head gives up its tail; the free total drops by `size` |
| TableAllocators.PageTableAllocator.Deallocate | sources/kernel/src/memory/table_allocator.cpp:204-218 | a block of `blocks * blockSize` bytes becomes the head and the free total grows by that much |
| TableAllocators.PageTableAllocator.Stats | sources/kernel/src/memory/table_allocator.cpp:249-261 | the free block count (the free memory in blocks), the chain length and the largest block, which no block exceeds |
| TableAllocators.ShrunkHeadIsWhole | sources/kernel/src/memory/table_allocator.cpp:51-56 | taking whole blocks from a larger whole block leaves a whole block |
| Tlsf.BitWidthBounds | sources/kernel/include/memory/detail/tlsf.hpp:28-35 | the bit width places a non-zero size between two consecutive powers of two |
| Tlsf.BitWidthIs | sources/kernel/include/memory/detail/tlsf.hpp:28-35 | two consecutive powers of two around `x` pin its bit width |
| Tlsf.CountTrailingZerosIsLowestBit | sources/kernel/include/memory/detail/tlsf.hpp:37-44 | `x` is an odd multiple of `2^countr_zero(x)` |
| Tlsf.BitScanLeadingIsIndex | sources/kernel/include/memory/detail/tlsf.hpp:28-35 | `BitScanLeading` of a non-zero mask is the index `r < 64` with `2^r <= mask < 2^(r+1)` |
| Tlsf.BitScanTrailingIsIndex | sources/kernel/include/memory/detail/tlsf.hpp:37-44 | `BitScanTrailing` of a non-zero mask is the index of its lowest set bit |
| Tlsf.BitScanLeadingAtLeast | sources/kernel/include/memory/detail/tlsf.hpp:28-35 | a mask of at least `2^k` has its highest set bit at `k` or above |
| Tlsf.MemoryClassIsZeroForSmall | sources/kernel/include/memory/detail/tlsf.hpp:46-52 | the memory class is 0 exactly for sizes up to `kSmallBufferSize`, below `kMaxMemoryClass`, and at least 1 above |
| Tlsf.XorClearsTopBit | sources/kernel/include/memory/detail/tlsf.hpp:60 | flipping bit 5 of a value in `[32, 64)` subtracts 32 |
| Tlsf.SecondIndexBelow32 | sources/kernel/include/memory/detail/tlsf.hpp:54-62 | a size's second-level index in its own memory class is one of the 32 lists |
| Tlsf.FreeListSizeIsIndexPlusOne | sources/kernel/include/memory/detail/tlsf.hpp:64-79 | above the small class the free-list count is one past the list's index |
| Tlsf.ListIndexIsInjective | sources/kernel/include/memory/detail/tlsf.hpp:72-79 | distinct (class, second index) pairs with second index below 32 have distinct list indices |
| Tlsf.ListIndexInRange | sources/kernel/include/memory/detail/tlsf.hpp:81-87 | every size maps to one of the `(kMaxMemoryClass + 1) * 32` lists, and a small size to one of the first 32 |
| Tlsf.NextBlockSizeGrows | sources/kernel/include/memory/detail/tlsf.hpp:89-97 | the next block size is larger for small sizes, and a 32nd of the size's power of two above them |
| Tlsf.TlsfBlock.constructor | sources/kernel/include/memory/detail/tlsf.hpp:99-105 | a new block has the given offset and size and is free |
| Tlsf.TlsfBlock.MarkTaken | sources/kernel/include/memory/detail/tlsf.hpp:115-117 | the block is in use and not free; offset and size are kept |
| Tlsf.TlsfBlock.MarkFree | sources/kernel/include/memory/detail/tlsf.hpp:119-121 | the block is free and not in use; offset and size are kept |
| Tlsf.Reverse | sources/kernel/include/memory/detail/tlsf.hpp:157-162 | the blocks in reverse order, position by position |
| Tlsf.TlsfBlockList.constructor | sources/kernel/include/memory/detail/tlsf.hpp:135-137 | a new list is empty |
| Tlsf.TlsfBlockList.Add | sources/kernel/include/memory/detail/tlsf.hpp:152-155 | the block becomes the head and the rest follow |
| Tlsf.TlsfBlockList.Drain | sources/kernel/include/memory/detail/tlsf.hpp:171-178 | an empty list gives null; otherwise the head is unlinked and returned |
| Tlsf.TlsfBlockList.Next | sources/kernel/include/memory/detail/tlsf.hpp:164-169 | the head of a non-empty list is unlinked and returned |
| Tlsf.TlsfBlockList.Append | sources/kernel/include/memory/detail/tlsf.hpp:157-162 | `list` ends empty and its blocks sit reversed in front of this list's |
| Tlsf.TlsfBlockList.Count | sources/kernel/include/memory/detail/tlsf.hpp:180-188 | the number of blocks in the list |
| Tlsf.ReverseTwice | sources/kernel/include/memory/detail/tlsf.hpp:157-162 | appending twice restores the original order |
| HeapBlocks.Tiling | sources/kernel/src/memory/heap.cpp:262-279 | contiguous blocks tile the addresses from the first block's offset to the end of the last |
| HeapBlocks.ReplaceRun | sources/kernel/src/memory/heap.cpp:913-924 | replacing a run of blocks by blocks that tile the same addresses keeps the list well formed and its span, and changes the free memory by the difference |
| HeapBlocks.ReplaceRunAt | sources/kernel/src/memory/heap.cpp:913-924 | the same for a list already known to be the result, with its prefix and first new block |
| HeapBlocks.ReplaceByPair | sources/kernel/src/memory/heap.cpp:547-568 | one block replaced by two that tile it keeps the list's shape and span, with the free memory adjusted by the blocks' states |
| HeapBlocks.MergeBlock | sources/kernel/src/memory/heap.cpp:913-924 | `mergeBlock` removes exactly one block from the list |
| HeapBlocks.FreedRun | sources/kernel/src/memory/heap.cpp:497-522 | the run `free` coalesces contains the freed block |
| HeapBlocks.FreeMergesNeighbours | sources/kernel/src/memory/heap.cpp:497-522 | freeing replaces the freed block and its free neighbours by one free block spanning them, and changes nothing else |
| HeapBlocks.RunSize | sources/kernel/src/memory/heap.cpp:497-522 | the bytes of that run are those of the freed block and of the free neighbours it absorbs |
| HeapBlocks.FreeMergesBoth | sources/kernel/src/memory/heap.cpp:506-519 | between two free neighbours all three blocks become one free block |
| HeapBlocks.FreeMergesPrev | sources/kernel/src/memory/heap.cpp:506-514 | after a free block and before an allocated one the two become one free block |
| HeapBlocks.FreeMergesNext | sources/kernel/src/memory/heap.cpp:513-519 | before a free block and after an allocated one the two become one free block |
| HeapBlocks.FreeMergesNone | sources/kernel/src/memory/heap.cpp:513-514 | between allocated blocks the block is only marked free |
| HeapBlocks.FreeAtFacts | sources/kernel/src/memory/heap.cpp:497-522 | freeing keeps the list well formed and its span, adds the block's size to the free memory, and keeps a coalesced list coalesced |
| HeapBlocks.RunFreeMemory | sources/kernel/src/memory/heap.cpp:497-522 | in the freed run only the freed block is allocated |
| HeapBlocks.SplitFacts | sources/kernel/src/memory/heap.cpp:570-597 | a split succeeds exactly for a midpoint strictly inside the block; the halves are allocated, meet at the midpoint and tile the block, span and free memory are kept; otherwise `InvalidInput` with nothing changed |
| HeapBlocks.SplitBlocksShape | sources/kernel/src/memory/heap.cpp:547-568 | the blocks of a successful split: two allocated halves meeting at the midpoint, the rest of the list unchanged |
| HeapBlocks.GrowFacts | sources/kernel/src/memory/heap.cpp:313-375 | success exactly for the same size or a free successor with room; `InvalidInput` exactly for a smaller size; otherwise `OutOfMemory` with nothing changed; on success the allocation keeps its address and has the new size |
| HeapBlocks.GrowInPlace | sources/kernel/src/memory/heap.cpp:345-370 | growing an allocation into a free successor with room succeeds: the list stays well formed with the same span, the allocation keeps its address and the blocks before it, has the new size, and the free memory drops by the bytes taken; this is the corrected merge of the heap.cpp:353-357 Findings row |
| HeapBlocks.GrowTail | sources/kernel/src/memory/heap.cpp:345-370 | taking bytes from the free successor keeps the list well formed and its span, gives the allocation its new size at the same address, and lowers the free memory by the bytes taken |
| HeapBlocks.GrowAsWrittenOverlapsNext | sources/kernel/src/memory/heap.cpp:353-357 | as written, growing 16 bytes to 32 into a 16-byte free neighbour gives a 48-byte block that overlaps the next block, where the corrected `Grow` gives 32 bytes and a well-formed list |
| HeapBlocks.GrowAsWrittenKeepsStaleSize | sources/kernel/src/memory/heap.cpp:301-311 | as written, growing by 2 bytes into a 100-byte free neighbour leaves that neighbour 100 bytes long and overlapping the next block, where the corrected `Grow` leaves 98 |
| HeapBlocks.ShrinkFacts | sources/kernel/src/memory/heap.cpp:377-397 | success exactly for the same size or a smaller non-zero one; otherwise `InvalidInput` with nothing changed; on success the allocation keeps its address, has the new size, and the cut-off bytes become free |
| HeapBlocks.ShrinkInPlace | sources/kernel/src/memory/heap.cpp:387-394 | shrinking an allocation to a smaller non-zero size succeeds: the list stays well formed with the same span, the allocation keeps its address and the blocks before it, has the new size, and the cut-off bytes become free memory |
| HeapBlocks.ShrinkIs | sources/kernel/src/memory/heap.cpp:387-394 | a real shrink is a split at `offset + size` followed by a free of the high half |
| HeapBlocks.ShrinkTail | sources/kernel/src/memory/heap.cpp:387-394 | freeing the high half leaves the low half in place with the new size and frees the cut-off bytes |
| HeapBlocks.FreeKeepsPrefix | sources/kernel/src/memory/heap.cpp:497-522 | freeing a block whose predecessor is allocated leaves every block before it alone |
| HeapBlocks.ResizeFacts | sources/kernel/src/memory/heap.cpp:399-424 | size 0 is `InvalidInput`; a size up to the current one succeeds; a successful resize leaves the allocation at its address with the new size; a failed one changes nothing |
| HeapBlocks.LastContaining | sources/kernel/src/memory/heap.cpp:709-730 | the highest block below `n` that contains the range, and none above it does; or none at all |
| HeapBlocks.ReserveFacts | sources/kernel/src/memory/heap.cpp:706-733 | `NotFound` exactly when no block contains the range, `NotAvailable` exactly when the highest one that does is allocated, with nothing changed; otherwise the allocation is exactly the range and the free memory drops by its size |
| HeapBlocks.CarveFrontFacts | sources/kernel/src/memory/heap.cpp:766-816 | splitting off the bytes below the aligned offset keeps the list well formed, its span and its free memory, and leaves a free block from the offset to the old end |
| HeapBlocks.CarveBackFacts | sources/kernel/src/memory/heap.cpp:818-858 | cutting the free block down to `size` allocated bytes keeps the list well formed and its span and lowers the free memory by `size` |
| HeapBlocks.CompactFromFacts | sources/kernel/src/memory/heap.cpp:282-291 | the compaction walk leaves the list well formed and coalesced with the same span and free memory |
| HeapBlocks.CompactMergeStep | sources/kernel/src/memory/heap.cpp:286-287 | a free block absorbing its free predecessor keeps the list's shape, span, free memory and base |
| HeapBlocks.CompactPushStep | sources/kernel/src/memory/heap.cpp:288-289 | stepping past a block that is not merged keeps the walked part coalesced |
| HeapBlocks.CompactFacts | sources/kernel/src/memory/heap.cpp:282-295 | compacting merges every run of free blocks: the list is well formed and coalesced, with the same span, free memory and base |
| HeapBlocks.CompactKeepsBase | sources/kernel/src/memory/heap.cpp:282-291 | compacting never moves the bottom of the heap |
| Heaps.Wrap64 | sources/kernel/src/memory/heap.cpp:989-992 | the `size_t` difference is below 2^64 and is the plain difference when that is in range |
| Heaps.TlsfHeap.Create | sources/kernel/src/memory/heap.cpp:118-144 | a new heap is one free null block covering the range, with no allocations counted |
| Heaps.TlsfHeap.CreateFromRanges | sources/kernel/src/memory/heap.cpp:146-190 | no ranges is `InvalidInput`; on success the heap is valid, spans the combined interval and counts every hole between neighbouring ranges as reserved |
| Heaps.TlsfHeap.Validate | sources/kernel/src/memory/heap.cpp:221-280 | true exactly when the heap is valid: the null block is free, each block ends where the one above starts, and the sizes add up to the heap's size |
| Heaps.TlsfHeap.Free | sources/kernel/src/memory/heap.cpp:497-522 | the allocation is merged with its free neighbours, the free memory grows by its size, coalescing is kept and the free count grows by one |
| Heaps.TlsfHeap.Split | sources/kernel/src/memory/heap.cpp:570-597 | the block list becomes the `Split` result, with `lo` and `hi` naming the two halves |
| Heaps.TlsfHeap.Grow | sources/kernel/src/memory/heap.cpp:313-375 | the block list becomes the corrected `Grow` result and stays valid |
| Heaps.TlsfHeap.Shrink | sources/kernel/src/memory/heap.cpp:377-397 | the block list becomes the `Shrink` result and one more free is counted when bytes were cut off |
| Heaps.TlsfHeap.Resize | sources/kernel/src/memory/heap.cpp:399-424 | the block list becomes the `Resize` result and stays valid |
| Heaps.TlsfHeap.Compact | sources/kernel/src/memory/heap.cpp:282-295 | the heap comes out coalesced with the same free memory |
| Heaps.TlsfHeap.Reserve | sources/kernel/src/memory/heap.cpp:706-733 | compacts, then the result of `ReserveIn`; on success the allocation is exactly the range and the free memory drops by its size; otherwise the free memory is unchanged |
| Heaps.TlsfHeap.AllocateAt | sources/kernel/src/memory/heap.cpp:475-495 | nothing for an address not 16-byte aligned or a zero size; an allocation is exactly `[address, address + size)` and lowers the free memory by `size` |
| Heaps.TlsfHeap.FindAllocation | sources/kernel/src/memory/heap.cpp:533-545 | `NotFound` exactly when no block starts at `address`; otherwise the highest block that does |
| Heaps.TlsfHeap.Stats | sources/kernel/src/memory/heap.cpp:972-998 | the block count, the free memory, and the used memory as `size - free - reserved` in `size_t` arithmetic |
| Heaps.MergeAllBelow | sources/kernel/src/memory/heap.cpp:146-160 | the combined interval of ranges below 2^64 ends below 2^64 |
| Heaps.FreeWithinTotal | sources/kernel/src/memory/heap.cpp:972-998 | the free bytes never exceed the bytes the blocks span |
| Heaps.StatsAddUp | sources/kernel/src/memory/heap.cpp:972-998 | without wrap-around the used, free and reserved bytes `stats` reports add up to the heap's size |
| MemoryManagers.LowerBound | sources/kernel/src/system/pmm.cpp:367-368 | `mSegments.lower_bound(address)`: the first segment whose back is at least `address` |
| MemoryManagers.UpperBound | sources/kernel/src/system/pmm.cpp:616 | `mSegments.upper_bound(address)`: the first segment whose back is above `address` |
| MemoryManagers.ReleaseCut | sources/kernel/src/system/pmm.cpp:380-420 | the branches of `release` within one segment: none exactly when the segment begins where the range ends, otherwise the overlap of the two, which is never empty |
| MemoryManagers.RetainCut | sources/kernel/src/system/pmm.cpp:211-247 | the branches of `retain` within one segment cut out the overlap of the two, which is never empty |
| MemoryManagers.MemoryManager.Create | sources/kernel/src/system/pmm.cpp:587-600 | a new manager holds no segments |
| MemoryManagers.MemoryManager.Allocate | sources/kernel/src/system/pmm.cpp:572-585 | no heap allocation means `OutOfMemory` with nothing changed; otherwise the range becomes a segment with one owner, the held bytes grow by its size and only its addresses gain an owner |
| MemoryManagers.MemoryManager.QuerySegment | sources/kernel/src/system/pmm.cpp:613-631 | `NotFound` exactly when no segment holds `address`; otherwise the segment that does, with its owner count |
| MemoryManagers.MemoryManager.Stats | sources/kernel/src/system/pmm.cpp:602-611 | the number of segments |
| MemoryManagers.MemoryManager.Release | sources/kernel/src/system/pmm.cpp:364-426 | `NotFound` with nothing changed only when the range is unowned; otherwise every owned address of the range loses one owner, the held bytes never grow, and releasing a segment with one owner that is exactly the range drops it |
| MemoryManagers.MemoryManager.Retain | sources/kernel/src/system/pmm.cpp:195-249 | `NotFound` with nothing changed only when the range is unowned; otherwise every owned address of the range gains one owner, the held bytes are unchanged, and a segment exactly the range just has its count bumped |
| MemoryManagers.OwnersAtIndex | sources/kernel/src/system/pmm.cpp:613-631 | an address of a segment has that segment's owner count |
| MemoryManagers.OwnersAtNone | sources/kernel/src/system/pmm.cpp:613-631 | an address no segment holds has no owner |
| MemoryManagers.BelowAllUnowned | sources/kernel/src/system/pmm.cpp:616-625 | an address between the backs before segment `k` and the backs from it on is unowned unless segment `k` holds it |
| MemoryManagers.UnownedAbove | sources/kernel/src/system/pmm.cpp:379-381 | when every segment ends below the range's front the range is unowned |
| MemoryManagers.OnlySegmentUnowned | sources/kernel/src/system/pmm.cpp:411-414 | a range ending where the segment it reaches begins is unowned |
| MemoryManagers.EveryBackBelowUnowned | sources/kernel/src/system/pmm.cpp:379-381 | a range starting at or above the back of every segment is unowned |
| MemoryManagers.ExactSegmentIsFound | sources/kernel/src/system/pmm.cpp:367-368 | a segment exactly the range is the one `lower_bound(range.back)` reaches, and `lower_bound(range.front)` reaches it or a touching predecessor |
| MemoryManagers.ExactSegmentIsKept | sources/kernel/src/system/pmm.cpp:211-216 | a segment exactly the range that `retain` reaches is the one it bumps |
| MemoryManagers.ReleaseMissing | sources/kernel/src/system/pmm.cpp:379-381 | when `release` finds nothing the range is unowned and no segment is exactly it |
| MemoryManagers.ReleaseInOne | sources/kernel/src/system/pmm.cpp:383-436 | `release` within the one segment it reaches keeps the segments valid and releases the range |
| MemoryManagers.ReleaseInNext | sources/kernel/src/system/pmm.cpp:424-430 | releasing the whole segment after the one whose back the range starts at releases the range |
| MemoryManagers.RetainMissing | sources/kernel/src/system/pmm.cpp:208-210 | when `retain` finds every segment below the range, it is unowned and no segment is exactly it |
| MemoryManagers.RetainInOne | sources/kernel/src/system/pmm.cpp:211-249 | `retain` within the one segment it reaches keeps the segments valid and retains the range |
| MemoryManagers.PiecesValid | sources/kernel/src/system/pmm.cpp:222-240 | the pieces of a split segment are valid, in order and inside it |
| MemoryManagers.PiecesUsed | sources/kernel/src/system/pmm.cpp:222-240 | the pieces hold the segment's bytes, less the middle when it is handed back |
| MemoryManagers.PiecesOwners | sources/kernel/src/system/pmm.cpp:231-233 | within the segment the middle piece has the new count and the rest keep the old one |
| MemoryManagers.Splice | sources/kernel/src/system/pmm.cpp:235-239 | replacing a segment by pieces inside it keeps the list valid and changes owner counts only on that segment's addresses |
| MemoryManagers.ReplaceOne | sources/kernel/src/system/pmm.cpp:222-240 | a segment cut at `lo` and `hi` with `n` owners between: only `[lo, hi)` changes |
| MemoryManagers.CutOwners | sources/kernel/src/system/pmm.cpp:380-420 | within one segment an address of the range is owned exactly when it lies in the cut |
| MemoryManagers.ReleasedOne | sources/kernel/src/system/pmm.cpp:383-420 | dropping an owner on the part of the segment the range covers releases the range |
| MemoryManagers.RetainedOne | sources/kernel/src/system/pmm.cpp:211-247 | adding an owner on the part of the segment the range covers retains the range |
| MemoryManagers.WholeSegmentBumped | sources/kernel/src/system/pmm.cpp:213-216 | a whole segment replaced by one piece with `n` owners just changes its count |
| MemoryManagers.OutsideOneUnowned | sources/kernel/src/system/pmm.cpp:380-420 | only the one segment reached can hold an address of a range no other segment ends in |
| MemoryManagers.ReleasedNext | sources/kernel/src/system/pmm.cpp:424-430 | releasing the whole next segment, when the range starts at the back of the one before, releases the range |
| MemoryManagers.InsertFacts | sources/kernel/src/system/pmm.cpp:86-89 | a segment disjoint from the others inserted at its `lower_bound` position keeps the list valid and only its addresses gain its owners |
| MemoryManagers.InsertPlace | sources/kernel/src/system/pmm.cpp:86-89 | the inserted segment lies above every segment before its position and below every one from it on |
| MemoryManagers.ReleaseAsWrittenMissesInnerSegment | sources/kernel/src/system/pmm.cpp:423-426 | with segments `[0, 10)` and `[20, 30)`, releasing `[10, 40)` as written reports `NotFound` although `[20, 30)` lies inside it and has an owner |
| MemoryManagers.FindsNothingIffUnowned | sources/kernel/src/system/pmm.cpp:379-381 | the intended `NotFound` holds exactly when no address of the range has an owner |
| Paging.SetMaskFacts | sources/kernel/include/arch/paging.hpp:9-15 | `setmask` sets or clears exactly the bits of `mask` and leaves every other bit as it was |
| Paging.AddressMask | sources/kernel/include/arch/paging.hpp:32-34 | `addressMask(width)` has exactly bits 12 to `width - 1` set |
| Paging.AddressMaskConstants | sources/kernel/include/arch/paging.hpp:36-37 | the 40- and 48-bit masks are `0x000000fffffff000` and `0x0000fffffffff000` |
| Paging.SetMemoryType | sources/kernel/include/arch/paging.hpp:40-52 | the PAT index read back is the low three bits of `type`, and no bit outside PWT, PCD and the PAT bit changes |
| Paging.GetMemoryType | sources/kernel/include/arch/paging.hpp:54-58 | a value below 8 whose bits 0, 1 and 2 are the entry's PWT, PCD and PAT bits |
| Paging.PageAttributeBit | sources/kernel/include/arch/paging.hpp:91 | the PAT bit lies at 7 for a page and 12 for a large or huge page, always above PCD |
| Paging.Entry.constructor | sources/kernel/include/arch/paging.hpp:61-63 | an entry at `level` holding `underlying` |
| Paging.Entry.MemoryType | sources/kernel/include/arch/paging.hpp:101-103 | the PAT index an entry selects is below 8 |
| Paging.Entry.SetPresent | sources/kernel/include/arch/paging.hpp:65 | only the present bit changes, and `present()` reads back the value set |
| Paging.Entry.SetWriteable | sources/kernel/include/arch/paging.hpp:68 | only the read/write bit changes, and `writeable()` reads back the value set |
| Paging.Entry.SetWriteThrough | sources/kernel/include/arch/paging.hpp:71 | only PWT changes, and `writeThrough()` reads back the value set |
| Paging.Entry.SetCacheDisable | sources/kernel/include/arch/paging.hpp:74 | only PCD changes, and `cacheDisable()` reads back the value set |
| Paging.Entry.SetUser | sources/kernel/include/arch/paging.hpp:77 | only the user bit changes, and `user()` reads back the value set |
| Paging.Entry.SetAccessed | sources/kernel/include/arch/paging.hpp:80 | only the accessed bit changes, and `accessed()` reads back the value set |
| Paging.Entry.SetWritten | sources/kernel/include/arch/paging.hpp:83 | only the dirty bit changes, and `written()` reads back the value set |
| Paging.Entry.SetExecutable | sources/kernel/include/arch/paging.hpp:86 | only the execute-disable bit changes, and `executable()` reads back the value set |
| Paging.Entry.SetLargePage | sources/kernel/include/arch/paging.hpp:112 | only the page-size bit changes, and `is2m()`/`is1g()` reads back the value set |
| Paging.Entry.SetPatEntry | sources/kernel/include/arch/paging.hpp:95-99 | only PWT, PCD and the level's PAT bit change, and `memoryType()` reads back the low three bits of the index |
| PageBuilders.GetMemoryType | sources/kernel/include/memory/paging.hpp:62-71 | the type found for a PAT entry maps back to that entry through `GetMemoryPatIndex`, and an entry no type uses reads as UC- |
| PageBuilders.PatIndexRoundTrip | sources/kernel/include/memory/paging.hpp:45-71 | when the layout's entries differ, looking a type's PAT entry up again gives the type back |
| PageBuilders.PageBuilder.Address | sources/kernel/include/memory/paging.hpp:104-106 | the address read from an entry has no bit outside the address mask |
| PageBuilders.PageBuilder.SetAddress | sources/kernel/include/memory/paging.hpp:108-110 | the masked address replaces the entry's address bits |
| PageBuilders.SetAddressKeepsOtherBits | sources/kernel/include/memory/paging.hpp:108-110 | after `setAddress` the entry's address is the masked address and every other bit is as it was |
| PageBuilders.PageBuilder.SetMemoryType | sources/kernel/include/memory/paging.hpp:116-126 | the entry selects the PAT entry the layout gives the type, and under a valid layout the corrected reading gives the type back |
| PageBuilders.PageBuilder.GetEntryMemoryTypeAsWritten | sources/kernel/include/memory/paging.hpp:128-138 | `getMemoryType` as written yields the raw PAT entry number, a code below 8 |
| PageBuilders.PageBuilder.HighBitsMask | sources/kernel/include/memory/paging.hpp:151 | the mask has exactly the bits from `vaddrBits - 1` up |
| PageBuilders.NewPageBuilder | sources/kernel/include/memory/paging.hpp:86-90 | the builder's address mask has exactly bits 12 to `paddrbits - 1`, and 48 bits means 4-level paging |
| PageBuilders.Canonical48 | sources/kernel/include/memory/paging.hpp:150-164 | with 48-bit virtual addresses the canonical ones are below `0x0000800000000000` or from `0xffff800000000000`, and the higher half is the latter |
| PageBuilders.Canonical57 | sources/kernel/include/memory/paging.hpp:150-164 | with 57-bit virtual addresses the canonical ones are below `0x0100000000000000` or from `0xff00000000000000`, and the higher half is the latter |
| PageBuilders.HigherHalfIsCanonical | sources/kernel/include/memory/paging.hpp:150-164 | a higher-half address is canonical |
| PageBuilders.FourLevelPagingIsWidth48 | sources/kernel/include/memory/paging.hpp:92-94 | `has4LevelPaging` holds exactly for a 48-bit physical address width |
| PageBuilders.WriteBackReadsAsUncachedAsWritten | sources/kernel/include/memory/paging.hpp:128-130 | under the boot layout an entry mapped write-back reads back through `getMemoryType` as written as code 0, uncached, while the corrected reading gives write-back |
| Layouts.PageAligned | sources/kernel/include/memory/layout.hpp:30-32 | the page-aligned range contains the original and both its bounds are page multiples |
| Layouts.PagesOf | sources/kernel/include/memory/layout.hpp:38-44 | the fewest pages of `pageSize` that hold `bytes` |
| Layouts.Pages | sources/kernel/include/memory/layout.hpp:38-40 | the fewest 4 KiB pages that hold `bytes` |
| Layouts.LargePages | sources/kernel/include/memory/layout.hpp:42-44 | the fewest 2 MiB pages that hold `bytes` |
| Layouts.AddressMapping.Slide | sources/kernel/include/memory/layout.hpp:76-78 | the slide is the virtual minus the physical address as a 64-bit unsigned value |
| Layouts.AddressMapping.First | sources/kernel/include/memory/layout.hpp:85-89 | the first `bytes` of the mapping: same starts, inside the mapping, same slide |
| Layouts.AddressMapping.Last | sources/kernel/include/memory/layout.hpp:92-98 | the last `bytes` of the mapping: same ends, inside the mapping, same slide |
| Layouts.AddressMapping.Subrange | sources/kernel/include/memory/layout.hpp:101-107 | `bytes` from `offset` on: both addresses moved by `offset`, inside the mapping, same slide |
| Layouts.AddressMapping.SubrangeFrom | sources/kernel/include/memory/layout.hpp:109-113 | the rest of the mapping from `offset`: same ends, non-empty, same slide |
| Layouts.AddressMapping.SubrangeOf | sources/kernel/include/memory/layout.hpp:116-127 | its virtual addresses are exactly those of the mapping inside `range`; an empty result is the empty mapping at 0; otherwise the physical part is inside the mapping and the slide is kept |
| Layouts.AddressMapping.Offset | sources/kernel/include/memory/layout.hpp:129-131 | both addresses move by `delta`, the size and the slide are kept |
| Layouts.AddressMapping.Aligned | sources/kernel/include/memory/layout.hpp:142-149 | the physical range is the smallest aligned cover of the original; the virtual address is aligned and not above the original; under `equalOffsetTo` the slide is kept and the virtual range covers the original |
| Layouts.AlignedKeepsSlide | sources/kernel/include/memory/layout.hpp:142-149 | rounding down two addresses at the same offset within a block keeps their distance |
| Layouts.AlignedExactIsIdentity | sources/kernel/include/memory/layout.hpp:152-154 | a mapping whose addresses and size are multiples of `align` is its own alignment |
| Layouts.MappingOfPhysical | sources/kernel/include/memory/layout.hpp:169-171 | the mapping of a physical range at `vaddr` has exactly that physical range |
| Layouts.MappingOfVirtual | sources/kernel/include/memory/layout.hpp:173-175 | the mapping of a virtual range backed from `paddr` has exactly that virtual range |
| Layouts.StackMapping.BaseAddress | sources/kernel/include/memory/layout.hpp:196-198 | a stack's base is the end of its mapped virtual range |
| Uuids.HexNibble | kernel/include/util/uuid.hpp:35-45 | a digit's value is below 16, a decimal digit gives its own value, any other character gives 0 |
| Uuids.HexNibbleOfDigit | kernel/include/util/uuid.hpp:35-45 | each of the sixteen lower- and upper-case digits is hexadecimal and decodes to its position |
| Uuids.PairValue | kernel/include/util/uuid.hpp:56 | the octet of two digits has the first digit's value on top and the second's below |
| Uuids.DecodeHex | kernel/include/util/uuid.hpp:47-60 | a string of digit pairs decodes to half as many octets |
| Uuids.EncodeHex | sources/kernel/src/util/uuid.cpp:136-142 | each octet is spelled with two digits |
| Uuids.High | sources/kernel/src/util/uuid.cpp:139 | the high four bits of an octet are below 16 |
| Uuids.Low | sources/kernel/src/util/uuid.cpp:140 | the low four bits of an octet are below 16 |
| Uuids.DecodeEncodeHex | sources/kernel/src/util/uuid.cpp:136-142 | the spelling of some octets is all hexadecimal and decodes back to those octets |
| Uuids.EncodedPair | sources/kernel/src/util/uuid.cpp:139-140 | the two digits written for octet `i` are hexadecimal and decode to it |
| Uuids.HexPairs | kernel/include/util/uuid.hpp:48-54 | where the read stops: every pair before it is hexadecimal and, short of `n`, the pair there is not |
| Uuids.ReadOctets | kernel/include/util/uuid.hpp:47-60 | succeeds exactly when all `n` pairs are hexadecimal; the octets of the pairs read before the first bad one are written from `at` on, and nothing else changes |
| Uuids.HexPairsStops | kernel/include/util/uuid.hpp:52-54 | the read stops at the first pair holding a non-digit, and then does not succeed |
| Uuids.GroupIsSlice | kernel/include/util/uuid.hpp:325-337 | reading `n` pairs from `k` on succeeds exactly when `h[k..k + 2n]` is all hexadecimal |
| Uuids.WellFormedGroups | kernel/include/util/uuid.hpp:325-337 | the text is well formed exactly when its five groups read and its four dashes are in place |
| Uuids.Of | kernel/include/util/uuid.hpp:320-340 | the literal is accepted exactly when it is well formed (after skipping one leading character for the braced form); its octets are the octets its 32 digits spell |
| Uuids.GroupsDecode | kernel/include/util/uuid.hpp:325-337 | the five groups read in turn into a nil UUID give the octets of all 32 digits |
| Uuids.DecodeHexConcat | kernel/include/util/uuid.hpp:47-60 | decoding two strings of whole pairs one after the other is decoding their concatenation |
| Uuids.Digits | kernel/include/util/uuid.hpp:320-340 | the 8-4-4-4-12 form holds 32 digits |
| Uuids.DigitsAt | kernel/include/util/uuid.hpp:325-337 | where each of the 32 digits sits in the 36-character text |
| Uuids.Format | sources/kernel/src/util/uuid.cpp:135-153 | the text form is 36 characters |
| Uuids.FormatDigits | sources/kernel/src/util/uuid.cpp:135-153 | the digits of the text form are the spelling of the octets, in order |
| Uuids.ParseFormat | sources/kernel/src/util/uuid.cpp:135-153 | the text form of any UUID is a well-formed literal that parses back to the same octets |
| Uuids.VariantFieldAsWritten | kernel/include/util/uuid.hpp:219-235 | as written, the field read from octet 8 is below 16 |
| Uuids.VariantFieldAsWrittenMisreads | kernel/include/util/uuid.hpp:219-235 | as written, octet `0x25` (reserved range) reads as the RFC 9562 variant and no Microsoft-range octet ever reads as `eMicrosoft` |
| Uuids.VariantField | kernel/include/util/uuid.hpp:219-235 | each of the four variants is read exactly when octet 8 starts with its leading bits (`0`, `10`, `110`, `111`) |
| Uuids.SetVariantFieldAsWritten | kernel/include/util/uuid.hpp:237-241 | as written, five of the six low bits of octet 8 are always cleared |
| Uuids.SetVariantFieldAsWrittenDropsBits | kernel/include/util/uuid.hpp:237-241 | as written, setting the RFC 9562 variant on `0xFF` gives `0x81` where `0xBF` is meant |
| Uuids.SetVariantField | sources/kernel/src/util/uuid.cpp:121 | the top two bits become the variant and the low six bits are kept |
| Uuids.SetDceReadsDce | sources/kernel/src/util/uuid.cpp:121 | setting the RFC 9562 variant and reading it back gives the RFC 9562 variant |
| Uuids.VersionField | kernel/include/util/uuid.hpp:209-213 | the version is below 16 |
| Uuids.SetVersionField | kernel/include/util/uuid.hpp:215-217 | the version read back is the new version's low four bits, and the low four bits of octet 6 are kept |
| Uuids.HashOf | kernel/include/util/uuid.hpp:352-358 | the hash is a 64-bit value |
| Uuids.Uuid.Nil | kernel/include/util/uuid.hpp:178-182 | every octet is `0x00` |
| Uuids.Uuid.Max | kernel/include/util/uuid.hpp:184-188 | every octet is `0xFF` |
| Uuids.Uuid.Version | kernel/include/util/uuid.hpp:209-213 | the version is below 16 |
| Uuids.Uuid.SetVersion | kernel/include/util/uuid.hpp:215-217 | only octet 6 changes; `version` reads back the new version's low four bits; the low four bits of octet 6 are kept |
| Uuids.Uuid.Variant | kernel/include/util/uuid.hpp:219-235 | the answer is one of the four variants, read by the corrected `VariantField` of the uuid.hpp:219-235 Findings row (the code as written returns a fragment of octet 8) |
| Uuids.Uuid.SetVariant | kernel/include/util/uuid.hpp:237-241 | only octet 8 changes, its top two bits become the variant and its low six are kept; the RFC 9562 variant then reads back; this is the corrected `SetVariantField` of the uuid.hpp:237-241 Findings row (the mask as written drops payload bits) |
| Uuids.Uuid.Equals | kernel/include/util/uuid.hpp:243-245 | two UUIDs are equal exactly when all sixteen octets are |
| Uuids.Uuid.Hash | kernel/include/util/uuid.hpp:351-359 | the hash folds the octets in order, wrapping at 2^64 |
| Formats.DigitValue | sources/kernel/include/util/format.hpp:121 | the value of a digit of `kHex` is below 16 |
| Formats.DigitValueOf | sources/kernel/include/util/format.hpp:121 | each digit of `kHex` has its own position as its value |
| Formats.DigitsOf | sources/kernel/include/util/format.hpp:125-140 | at least one digit, and no leading zero for a positive value |
| Formats.ValueOfDigits | sources/kernel/include/util/format.hpp:125-140 | the digits of a value, read back in the same base, give the value |
| Formats.DigitsStep | sources/kernel/include/util/format.hpp:134-137 | the last digit is `kHex[v % base]` and the rest are the digits of `v / base` |
| Formats.Repeat | sources/kernel/include/util/format.hpp:147-150 | `n` characters, each the fill character |
| Formats.RenderShape | sources/kernel/include/util/format.hpp:119-157 | the text's length is the digits' (or the width's with a fill) plus the sign; it ends with the digits, starts with `-` exactly for a negative number, and is filled in between |
| Formats.PaddedShape | sources/kernel/include/util/format.hpp:142-151 | with a fill, at least `width` characters ending with the digits and filled in front; without one, the digits alone |
| Formats.SignedShape | sources/kernel/include/util/format.hpp:153-155 | a negative number gets one `-` in front; a non-negative one nothing |
| Formats.DigitsNoSign | sources/kernel/include/util/format.hpp:125-140 | no digit is a minus sign |
| Formats.Magnitude | sources/kernel/include/util/format.hpp:128-132 | the corrected magnitude is the input or its negation |
| Formats.FormatIntAsWrittenMisprintsNegative | sources/kernel/include/util/format.hpp:128-129 | as written, a negative number is printed as the unsigned value it converts to, which differs from its magnitude except at half the range |
| Formats.FormatIntAsWrittenMinusOne | sources/kernel/include/util/format.hpp:128-129 | as written, -1 as an 8-bit integer prints as `-FF` where `-1` is meant |
| Formats.FormatInt | sources/kernel/include/util/format.hpp:119-157 | the formatted number fills the tail of the buffer and nothing in front of it changes |
| Formats.WriteDigits | sources/kernel/include/util/format.hpp:124-140 | the digits of the magnitude are written at the end of the buffer, and nothing in front changes; the magnitude is the corrected `Magnitude` of the format.hpp:128-129 Findings row, where the code as written casts a negative value to unsigned |
| Formats.WriteFill | sources/kernel/include/util/format.hpp:142-151 | the fill is written in front of the digits until `width` characters are filled, and nothing else changes |
| Formats.RenderZero | sources/kernel/include/util/format.hpp:138-139 | zero, unpadded, is `0` |
| Formats.HexToString | sources/kernel/include/util/format.hpp:209-221 | the text is `0x` (when asked for) followed by the base-16 form; the rest of the buffer is untouched; a negative value is written through the corrected `Magnitude` of the format.hpp:128-129 Findings row |
| Formats.CopyInto | sources/kernel/include/util/format.hpp:219 | the source is copied at the offset and the rest of the destination is kept |
| Formats.FlagWordsDistinct | sources/kernel/include/util/format.hpp:170-178 | `present`, `enabled` and the `bool` formatter each give different words for true and false |
| Chrono.U32 | sources/kernel-common/include/util/cxx_chrono.hpp:1604 | a conversion to `uint32_t` lies in 0 to 2^32 - 1 |
| Chrono.U64 | sources/kernel-common/include/util/cxx_chrono.hpp:524 | a conversion to a 64-bit unsigned type lies in 0 to 2^64 - 1 |
| Chrono.I32 | sources/kernel-common/include/util/cxx_chrono.hpp:1622 | a conversion to `int32_t` lies in the 32-bit signed range |
| Chrono.I16 | sources/kernel-common/include/util/cxx_chrono.hpp:766 | a conversion to `short` lies in the 16-bit signed range |
| Chrono.ModuloOffsetFacts | sources/kernel-common/include/util/cxx_chrono.hpp:511-517 | the offset is 2^64 less a multiple of `d`, and leaves room for a sum up to 255 + d - 1 |
| Chrono.AddModulo | sources/kernel-common/include/util/cxx_chrono.hpp:523-536 | the result is below `d` |
| Chrono.SubModulo | sources/kernel-common/include/util/cxx_chrono.hpp:540-544 | the result is below `d` |
| Chrono.AddModuloIsMod | sources/kernel-common/include/util/cxx_chrono.hpp:523-536 | for `x` up to 255 + d - 1, the result is the Euclidean remainder of `x + y`, negative `y` included |
| Chrono.SubModuloIsMod | sources/kernel-common/include/util/cxx_chrono.hpp:540-544 | for `x` up to 255 + d - 1, the result is the Euclidean remainder of `x - y` |
| Chrono.DayPlus | sources/kernel-common/include/util/cxx_chrono.hpp:606-608 | when the sum fits an `unsigned char` the day is the sum |
| Chrono.DayDiff | sources/kernel-common/include/util/cxx_chrono.hpp:618-620 | adding the difference of two days to the second gives the first |
| Chrono.MonthPlus | sources/kernel-common/include/util/cxx_chrono.hpp:693-699 | the result is a valid month, `n` months on modulo 12 |
| Chrono.MonthMinus | sources/kernel-common/include/util/cxx_chrono.hpp:706-712 | the result is a valid month, `n` months back modulo 12 |
| Chrono.MonthDiff | sources/kernel-common/include/util/cxx_chrono.hpp:714-718 | for valid months, 0 to 11 months, and adding them to the second month gives the first |
| Chrono.MonthPlusMinus | sources/kernel-common/include/util/cxx_chrono.hpp:693-712 | going `n` months forward and then back returns to a valid month |
| Chrono.Weekday.IsoEncoding | sources/kernel-common/include/util/cxx_chrono.hpp:949-951 | Monday to Saturday keep their number, Sunday is 7: 1 to 7, equal to the weekday modulo 7 |
| Chrono.MakeWeekday | sources/kernel-common/include/util/cxx_chrono.hpp:905-907 | 0 to 6 give that weekday |
| Chrono.SevenIsSunday | sources/kernel-common/include/util/cxx_chrono.hpp:905-907 | `weekday{7}` is Sunday, whose ISO encoding is 7 |
| Chrono.WeekdayOfDays | sources/kernel-common/include/util/cxx_chrono.hpp:898-910 | the weekday of a day count is Thursday plus the count, modulo 7 |
| Chrono.WeekdayPlus | sources/kernel-common/include/util/cxx_chrono.hpp:964-967 | `n` days on, modulo 7, a valid weekday |
| Chrono.WeekdayMinus | sources/kernel-common/include/util/cxx_chrono.hpp:974-977 | `n` days back, modulo 7, a valid weekday |
| Chrono.WeekdayDiff | sources/kernel-common/include/util/cxx_chrono.hpp:979-983 | for valid weekdays, 0 to 6 days, and adding them to the second gives the first |
| Chrono.WeekdayOfDaysShift | sources/kernel-common/include/util/cxx_chrono.hpp:898-910 | the weekday `n` days after a day is that day's weekday `n` days on |
| Chrono.IsLeapIsGregorian | sources/kernel-common/include/util/cxx_chrono.hpp:808-832 | `is_leap`'s bit trick is the Gregorian rule: divisible by 4 and not by 100, or by 400 |
| Chrono.MakeYear | sources/kernel-common/include/util/cxx_chrono.hpp:766 | a value in the `short` range is kept |
| Chrono.YearPlus | sources/kernel-common/include/util/cxx_chrono.hpp:849-851 | when the count and the sum fit, the year is the sum |
| Chrono.TruncDivIsFloor | sources/kernel-common/include/util/cxx_chrono.hpp:1364-1365 | the truncating division of `i - 11` by 12 is the floor of `i / 12` for negative `i` |
| Chrono.YearMonthPlus | sources/kernel-common/include/util/cxx_chrono.hpp:1360-1369 | the month of the result is valid |
| Chrono.YearMonthPlusCountsMonths | sources/kernel-common/include/util/cxx_chrono.hpp:1360-1369 | when the year fits, the months counted from year 0 grow by exactly `n` |
| Chrono.LastDayMatchesTable | sources/kernel-common/include/util/cxx_chrono.hpp:1667-1692 | the bit trick gives the table's month length; February has 29 days exactly in leap years |
| Chrono.LastOfMonth | sources/kernel-common/include/util/cxx_chrono.hpp:1775-1777 | the last day of a valid year and month is a valid date in that year and month |
| Chrono.YearMonthDayPlusMonths | sources/kernel-common/include/util/cxx_chrono.hpp:1497-1500 | the day is kept, the month is valid and, when the year fits, the months counted grow by `n` |
| Chrono.YearMonthDayPlusYears | sources/kernel-common/include/util/cxx_chrono.hpp:1508-1511 | the month and day are kept and, when it fits, the year moves by `n` |
| Chrono.CenturySplit | sources/kernel-common/include/util/cxx_chrono.hpp:1568-1574 | the day count is the century's start plus the day of the century, and only a fourth century has day 36524 |
| Chrono.YearSplit | sources/kernel-common/include/util/cxx_chrono.hpp:1576-1580 | the day of the century is the year's start plus the day of the year, the year is 0 to 99, and only a fourth year has day 365 |
| Chrono.FastDivide1461 | sources/kernel-common/include/util/cxx_chrono.hpp:1578-1580 | multiplying by 2939745 and dividing by 2^32 divides by 1461 for a century of days |
| Chrono.MonthSplit | sources/kernel-common/include/util/cxx_chrono.hpp:1582-1585 | the day of the year is a shifted month's start plus a day within that month |
| Chrono.CenturyUnique | sources/kernel-common/include/util/cxx_chrono.hpp:1568-1574 | a century and a day within it come back from the century split |
| Chrono.YearUnique | sources/kernel-common/include/util/cxx_chrono.hpp:1576-1580 | a year of the century and a day within it come back from the year split |
| Chrono.MonthJoin | sources/kernel-common/include/util/cxx_chrono.hpp:1582-1585 | a shifted month and a day within it come back from the month split |
| Chrono.DaysSinceEpochIs | sources/kernel-common/include/util/cxx_chrono.hpp:1603-1622 | for a valid date the count wraps nothing: it is the shifted year's start plus the day of the year, less the shift |
| Chrono.YearShiftWraps | sources/kernel-common/include/util/cxx_chrono.hpp:1607 | the year shift in `uint32_t` is `y + 1468000` for every valid year |
| Chrono.MinDaysIsFirstDate | sources/kernel-common/include/util/cxx_chrono.hpp:1603-1622 | the smallest count is that of -32767-01-01 |
| Chrono.MaxDaysIsLastDate | sources/kernel-common/include/util/cxx_chrono.hpp:1603-1622 | the largest count is that of 32767-12-31 |
| Chrono.FromDaysOfDaysSinceEpoch | sources/kernel-common/include/util/cxx_chrono.hpp:1565-1597 | converting a valid date to days since 1970-01-01 and back gives the date |
| Chrono.DaysSinceEpochOfFromDays | sources/kernel-common/include/util/cxx_chrono.hpp:1565-1597 | every count between the first and the last valid date converts to a valid date that converts back to the count |
| Chrono.Make12 | sources/kernel-common/include/util/cxx_chrono.hpp:2258-2264 | an hour of the day becomes 1 to 12, congruent modulo 12 |
| Chrono.Make24 | sources/kernel-common/include/util/cxx_chrono.hpp:2266-2277 | an hour 1 to 12 becomes an hour in the half of the day asked for, congruent modulo 12 |
| Chrono.AmPmPartition | sources/kernel-common/include/util/cxx_chrono.hpp:2250-2256 | every hour of the day is in exactly one half of the day |
| Chrono.Make24OfMake12 | sources/kernel-common/include/util/cxx_chrono.hpp:2258-2277 | `make24` undoes `make12`, given the half of the day |
| Chrono.Make12OfMake24 | sources/kernel-common/include/util/cxx_chrono.hpp:2258-2277 | `make12` undoes `make24`, and the hour lands in the half asked for |
| Chrono.Power10Fits | sources/kernel-common/include/util/cxx_chrono.hpp:2076-2081 | up to `10^18` the powers of ten fit a `long long` |
| Chrono.Pow10 | sources/kernel-common/include/util/cxx_chrono.hpp:2076-2081 | the loop computes ten to the power `n` |
| Tarfs.NameText | sources/kernel/src/fs2/tarfs.cpp:25-33 | the name is the bytes before the first NUL (all of the field when there is none), and holds no NUL |
| Tarfs.ToOsSeparators | sources/kernel/src/fs2/tarfs.cpp:38-42 | every '/' becomes the path separator and every other byte is kept |
| Tarfs.DropTrailing | sources/kernel/src/fs2/tarfs.cpp:50-52 | one trailing separator is removed, and nothing else changes |
| Tarfs.StripCurrentDir | sources/kernel/src/fs2/tarfs.cpp:60-62 | the result is a suffix of the path that no longer begins with a current-directory segment |
| Tarfs.TarPathTextFacts | sources/kernel/src/fs2/tarfs.cpp:17-73 | a converted path holds no '/', does not begin with a current-directory segment and is no longer than the name |
| Tarfs.NameTextIs | sources/kernel/src/fs2/tarfs.cpp:25-33 | a name whose first `n` bytes are not NUL, followed by a NUL or the end of the field, is those `n` bytes |
| Tarfs.StripCurrentDirIdempotent | sources/kernel/src/fs2/tarfs.cpp:60-62 | stripping twice strips nothing more |
| Tarfs.TarPathOfFolder | sources/kernel/src/fs2/tarfs.cpp:46-62 | the folder name `./bin/` converts to `bin` |
| Tarfs.ConvertTarPath | sources/kernel/src/fs2/tarfs.cpp:17-73 | `InvalidPath` exactly when the path rules reject the converted name; otherwise success with the converted name |
| Tarfs.DigitRun | sources/kernel/include/fs2/tarfs.hpp:26-30 | the count of leading octal digits: all before it are octal and the byte at it is not |
| Tarfs.DigitRunIs | sources/kernel/include/fs2/tarfs.hpp:26-30 | a run of octal digits followed by a non-digit or the end is counted whole |
| Tarfs.OctalDigits | sources/kernel/include/fs2/tarfs.hpp:24-34 | a number written as `width` octal digits |
| Tarfs.OctalValueOfDigits | sources/kernel/include/fs2/tarfs.hpp:24-34 | reading back `width` octal digits gives the number written, when it fits |
| Tarfs.OctalRoundTrip | sources/kernel/include/fs2/tarfs.hpp:24-34 | an octal field followed by a terminator reads back as the number written |
| Tarfs.TarNumber | sources/kernel/include/fs2/tarfs.hpp:24-34 | the loop's value is the octal number the field begins with |
| Tarfs.ChecksumOverread | sources/kernel/include/fs2/tarfs.hpp:26 | as written, a checksum field of eight '0' digits followed by the type flag '5' reads as 5, where the field alone holds 0 |
| Tarfs.ZeroDigits | sources/kernel/include/fs2/tarfs.hpp:24-34 | zero written in octal is all '0' digits |
| Tarfs.ActualChecksum | sources/kernel/include/fs2/tarfs.hpp:65-101 | the checksum is a 64-bit value |
| Tarfs.ActualChecksumOfAscii | sources/kernel/include/fs2/tarfs.hpp:65-101 | for an ASCII header the signed sum is the tar format's unsigned byte sum with the checksum field counted as spaces |
| Tarfs.WithChecksumField | sources/kernel/include/fs2/tarfs.hpp:65-101 | only the checksum field is replaced |
| Tarfs.WrittenChecksumVerifies | sources/kernel/include/fs2/tarfs.hpp:61-101 | a header whose field holds its own checksum, as tar writes it, passes the check |
| Tarfs.EntryType | sources/kernel/include/fs2/tarfs.hpp:103-109 | '0' exactly gives a file and '5' exactly gives a folder |
| Tarfs.NextHeader | sources/kernel/src/fs2/tarfs.cpp:133-153 | the next header lies at least one block further on |
| Tarfs.HeaderVerdict | sources/kernel/src/fs2/tarfs.cpp:84-169 | a header that is skipped or kept lies on the media and so does its data |
| Tarfs.WalkStep | sources/kernel/src/fs2/tarfs.cpp:84-178 | a step that goes on moves the offset forward |
| Tarfs.WalkStepKeeps | sources/kernel/src/fs2/tarfs.cpp:153-178 | a kept header under an accepted path is inserted, and the walk goes on past its data |
| Tarfs.CheckHeader | sources/kernel/src/fs2/tarfs.cpp:85-169 | the checks in the loop's order give the verdict of the header and, when it is skipped or kept, the offset past its data; numbers are read with the field-limited `TarNumber` of the tarfs.hpp:26 Findings row, where the code as written reads the checksum past its field |
| Tarfs.ParseHeader | sources/kernel/src/fs2/tarfs.cpp:84-178 | one iteration either stops with the status the step gives or moves past the header, inserting its entry when it is kept; the checksum is read with the corrected `TarNumber` of the tarfs.hpp:26 Findings row |
| Tarfs.ParseTar | sources/kernel/src/fs2/tarfs.cpp:75-181 | the status and the entries are those of the walk from offset 0; the walk reads numbers with the corrected `TarNumber` of the tarfs.hpp:26 Findings row |
| Tarfs.HeaderEntryOnMedia | sources/kernel/src/fs2/tarfs.cpp:133-153 | an accepted header's entry lies on the media and the next header offset is block-aligned |
| Tarfs.WalkStepShape | sources/kernel/src/fs2/tarfs.cpp:84-178 | a step stops with the entries it was given, or moves past a skipped or kept header inserting at most that header's entry |
| Tarfs.WalkStepEntries | sources/kernel/src/fs2/tarfs.cpp:84-178 | a step keeps every entry on the media and the offset block-aligned |
| Tarfs.InsertOnMedia | sources/kernel/src/fs2/tarfs.cpp:172-177 | inserting an entry on the media keeps every entry on the media |
| Tarfs.WalkEntries | sources/kernel/src/fs2/tarfs.cpp:84-178 | the walk inserts only entries on the media, under accepted paths |
| Tarfs.ParsedEntries | sources/kernel/src/fs2/tarfs.cpp:75-181 | every entry the parse returns lies on the media under an accepted path, whatever status it ends with |
| Tarfs.DataPastEndIsInvalid | sources/kernel/src/fs2/tarfs.cpp:140-147 | a header whose data runs past the media ends the parse with `InvalidInput`, keeping the entries found before it |
| Tarfs.EmptyArchive | sources/kernel/src/fs2/tarfs.cpp:98-103 | an archive that begins with an empty name has no entries |
| Tarfs.DeviceRead | sources/kernel/src/fs2/tarfs.cpp:244 | a read gives at most the bytes asked for, and exactly them when they lie on the media |
| Tarfs.FileRead | sources/kernel/src/fs2/tarfs.cpp:234-247 | `EndOfFile` with nothing read exactly at or past the end of the file; otherwise success with at most the bytes asked for and left in the file |
| Tarfs.ReadOfParsedFile | sources/kernel/src/fs2/tarfs.cpp:234-247 | a file of a parsed archive reads exactly the bytes of its data the request asks for |
| Tarfs.FileStat | sources/kernel/src/fs2/tarfs.cpp:249-259 | the size, 512-byte blocks, and the fewest blocks that hold the file |
| SmBios.TestEntryChecksum | sources/kernel/src/smbios.cpp:30-46 | accepted exactly when checksums are ignored or the bytes sum to zero modulo 256 |
| SmBios.ChecksumByteBalances | sources/kernel/src/smbios.cpp:30-46 | bytes followed by one more byte pass the test exactly when that byte is their checksum byte |
| SmBios.Terminator | sources/kernel/src/smbios.cpp:56-63 | the first double NUL from the string area on, where the scans stop, or the end of memory |
| SmBios.NulFrom | sources/kernel/src/smbios.cpp:57-59 | the first NUL from `at` on |
| SmBios.PiecesHaveNoNul | sources/kernel/src/smbios.cpp:56-73 | no string of a set holds a NUL |
| SmBios.PiecesJoin | sources/kernel/src/smbios.cpp:56-73 | the strings of a set joined with NULs are the bytes they were read from |
| SmBios.EndOfSet | sources/kernel/src/smbios.cpp:57-63 | the NUL ending a string is followed by a second NUL exactly at the end of the set |
| SmBios.EndOfString | sources/kernel/src/smbios.cpp:57-63 | the inner loop stops at the NUL ending the string, and the scan ends exactly when a second NUL follows |
| SmBios.StringAt | sources/kernel/src/smbios.cpp:92-100 | index 0 is "Not specified", an index past the strings is "Invalid index", otherwise the string counted from 1 |
| SmBios.CollectFromPieces | sources/kernel/src/smbios.cpp:56-73 | as written, the scan passes every string of the set but the last |
| SmBios.CollectAllPieces | sources/kernel/src/smbios.cpp:56-73 | the corrected scan passes every string of the set |
| SmBios.CollectFromIs | sources/kernel/src/smbios.cpp:56-73 | from the start of a set, the as-written scan passes all its strings but the last |
| SmBios.CollectAllIs | sources/kernel/src/smbios.cpp:56-73 | from the start of a set, the corrected scan passes all its strings, none for an empty set |
| SmBios.EntryFound | sources/kernel/src/smbios.cpp:65-69 | as written, the lookup stops at string `index` of all but the last string |
| SmBios.EntryMissing | sources/kernel/src/smbios.cpp:61-63 | as written, reaching the double NUL first means all but the last string have no string `index` |
| SmBios.LookupFound | sources/kernel/src/smbios.cpp:65-69 | the corrected lookup stops at string `index` of the set |
| SmBios.LookupMissing | sources/kernel/src/smbios.cpp:61-63 | the corrected lookup passing the last string means the set has no string `index` |
| SmBios.GetStringEntryAsWritten | sources/kernel/src/smbios.cpp:48-76 | as written, the answer is string `index` among all the set's strings but the last |
| SmBios.GetStringEntry | sources/kernel/src/smbios.cpp:48-76 | the answer is string `index` of the structure's string set |
| SmBios.LastStringLost | sources/kernel/src/smbios.cpp:61-63 | a structure whose one string is "A" has that string in its set, but the as-written scan passes none |
| SmBios.Kept | sources/kernel/src/smbios.cpp:90 | at most 16 strings are kept: the first ones, or all of them when there are no more |
| SmBios.KeptAppend | sources/kernel/src/smbios.cpp:112 | adding a string to the kept strings keeps the first 16 of the longer list |
| SmBios.BiosString | sources/kernel/src/smbios.cpp:120-127 | text longer than 64 bytes is cut to its first 64 |
| SmBios.Recorded | sources/kernel/src/smbios.cpp:118-127 | a structure other than firmware or system information leaves the platform information unchanged |
| SmBios.NextStructure | sources/kernel/src/smbios.cpp:129 | the next structure starts just past the double NUL ending this one's strings |
| SmBios.ScanStringsAsWritten | sources/kernel/src/smbios.cpp:102-116 | as written, the first 16 of all the strings but the last are kept, and the scan ends just past the double NUL |
| SmBios.ScanStrings | sources/kernel/src/smbios.cpp:102-116 | the first 16 strings of the set are kept, and the scan ends just past the double NUL |
| SmBios.ReadSmbiosEntry | sources/kernel/src/smbios.cpp:83-130 | the platform information records the firmware or system strings of the structure, and the next structure starts past the double NUL; the strings are collected by the corrected `ScanStrings` of the smbios.cpp:61-63 Findings row, where the loop as written (smbios.cpp:107-112) breaks before adding the last string |
| SmBios.KeptLookup | sources/kernel/src/smbios.cpp:92-100 | the local lookup agrees with `GetStringEntry` for the first 16 strings, and answers "Invalid index" past them |
| SmBios.ReadStructures | sources/kernel/src/smbios.cpp:199-201 | the platform information is what the structures from the table start to its end record in turn |
| SmBios.OtherStructuresIgnored | sources/kernel/src/smbios.cpp:118-127 | a structure of any other type leaves the platform information as it was |
| SmBios.FindSmbios64 | sources/kernel/src/smbios.cpp:132-147 | success exactly when the tables are found: the anchor matches and, unless ignored, the 24-byte entry sums to zero; otherwise `InvalidData` or `ChecksumError` |
| SmBios.FindSmbios32 | sources/kernel/src/smbios.cpp:149-174 | success exactly when the tables are found: the anchor matches and, unless ignored, the base and extended headers each sum to zero |
| SmBios.FindSmbiosTablesAsWritten | sources/kernel/src/smbios.cpp:207-234 | as written, the answer is success or `NotFound`, never the error of the last attempt |
| SmBios.FindSmbiosTables | sources/kernel/src/smbios.cpp:207-234 | success exactly when the tables are found; otherwise the status of the last entry point tried |
| SmBios.FindSmbiosTablesAgree | sources/kernel/src/smbios.cpp:207-234 | both succeed on the same inputs and then give the same tables |
| SmBios.Prefers64 | sources/kernel/src/smbios.cpp:215-222 | a valid 64-bit entry point that is not ignored is the one used |
| SmBios.LastErrorDropped | sources/kernel/src/smbios.cpp:233 | a 64-bit entry point with a bad checksum and no 32-bit one gives `NotFound` as written, where the checksum error is meant |
| Acpi.ValidateChecksum | sources/kernel/src/acpi/acpi.cpp:12-19 | valid exactly when the bytes sum to a multiple of 256; the 32-bit wrap of the sum never changes its low byte |
| Acpi.LowByteOfWord | sources/kernel/src/acpi/acpi.cpp:15-18 | truncating to 32 bits keeps the low byte |
| Acpi.CheckedLength | sources/kernel/src/acpi/acpi.cpp:21-30 | revision 0 covers the 20-byte ACPI 1.0 locator; every other revision covers `length` bytes |
| Acpi.ValidateRsdpLocator | sources/kernel/src/acpi/acpi.cpp:21-30 | valid exactly when the part of the locator its revision defines sums to a multiple of 256 |
| Acpi.RevisionZeroIgnoresExtension | sources/kernel/src/acpi/acpi.cpp:23-24 | a revision-0 locator's verdict does not depend on the bytes past its first 20 |
| Acpi.UnknownRevisionAsXsdt | sources/kernel/src/acpi/acpi.cpp:25-28 | every revision other than 0 is checked as revision 2 is |
| Acpi.SetUniqueTableEntry | sources/kernel/src/acpi/acpi.cpp:205-215 | the first table with the wanted signature is recorded; a later duplicate or another kind leaves the record as it was |
| Acpi.FirstWith | sources/kernel/src/acpi/acpi.cpp:230-236 | the index of the first table with the wanted signature, or none when no table has it |
| Acpi.FirstWithAppend | sources/kernel/src/acpi/acpi.cpp:230-236 | offering one more table keeps the first match among all of them |
| Acpi.FirstWithPrefix | sources/kernel/src/acpi/acpi.cpp:230-236 | after each table of the loop, the record is the first match among the tables so far |
| Acpi.AcpiTables.constructor | sources/kernel/src/acpi/acpi.cpp:217-264 | the entries are the tables, and the MADT, MCFG and FADT are the first tables with their signatures |
| Acpi.Advance | sources/kernel/src/acpi/acpi.cpp:190-194 | the cursor moves on by the entry's length byte |
| Acpi.ZeroLengthStalls | sources/kernel/src/acpi/acpi.cpp:190-203 | an entry of length 0 leaves the cursor where it was, still below the end, so the walk never finishes |
| Acpi.ZeroLengthEntryExample | sources/kernel/src/acpi/acpi.cpp:190-203 | a MADT whose only entry has length 0 leaves the cursor at the first entry |
| Acpi.EntryOffsets | sources/kernel/src/acpi/acpi.cpp:190-203 | every entry visited lies within the table |
| Acpi.EntriesFollowLengths | sources/kernel/src/acpi/acpi.cpp:190-203 | consecutive entries are one length byte apart, and only the last may have length 0 |
| Acpi.FoundMembers | sources/kernel/src/acpi/acpi.cpp:292-302 | the entries counted are exactly the visited entries of the wanted type |
| Acpi.CountEntries | sources/kernel/src/acpi/acpi.cpp:292-302 | the count is the number of MADT entries of the wanted type |
| Acpi.MapIoApic | sources/kernel/src/acpi/acpi.cpp:270-282 | the `index`-th I/O APIC entry when there are that many, otherwise none |
| Acpi.MapIoApicWithinCount | sources/kernel/src/acpi/acpi.cpp:270-286 | an I/O APIC is found exactly when `index` is below `ioApicCount`, and it is an I/O APIC entry of the MADT |
| Apic.DeliverCode | sources/kernel/include/apic.hpp:14-19 | a destination shorthand fits two bits |
| Apic.ModeCode | sources/kernel/include/apic.hpp:21-28 | a delivery mode fits three bits and is never the reserved code 3 |
| Apic.BuildIpi | sources/kernel/src/apic.cpp:204-212 | the vector, delivery mode, destination mode, level and trigger each land in their own bits, and nothing else is set |
| Apic.IpiBits | sources/kernel/src/apic.cpp:204-212 | where each field of a command word lands |
| Apic.DecodeBuildIpi | sources/kernel/src/apic.cpp:204-212 | decoding an encoded alert gives the alert back |
| Apic.BuildDecodedIpi | sources/kernel/src/apic.cpp:204-212 | a word that decodes is the encoding of what it decodes to |
| Apic.DecodedCodes | sources/kernel/src/apic.cpp:204-212 | the codes of a decoded alert are the fields of its word |
| Apic.KnownIpis | sources/kernel/src/apic.cpp:220-221 | an INIT alert encodes as `0x4500` and a start-up alert for `0x8000` as `0x4608` |
| Apic.BuildIpiShorthand | sources/kernel/src/apic.cpp:214-218 | the shorthand lands in bits 18-19 beside the unchanged command word, and nothing else is set |
| Apic.ShorthandBits | sources/kernel/src/apic.cpp:214-218 | where the shorthand lands beside a command word |
| Apic.DivideRegister | sources/kernel/src/apic.cpp:286-290 | only bits 0, 1 and 3 of the divide register are set |
| Apic.DivideRegisterDivides | sources/kernel/src/apic.cpp:286-290 | the register written makes the hardware divide by the setting's divisor |
| Apic.DivideRegisterInjective | sources/kernel/src/apic.cpp:286-290 | distinct settings give distinct register values |
| Apic.SetSpuriousVector | sources/kernel/src/apic.cpp:311-315 | the vector replaces the low byte and the rest of the register is kept |
| Apic.TimerCode | sources/kernel/include/apic.hpp:59-64 | a timer mode fits two bits |
| Apic.LvtEntry | sources/kernel/src/apic.cpp:272-284 | the vector, polarity, trigger and mask each land in their bit, and the timer mode goes in bits 17-18 only for the timer entry with a mode |
| Apic.LvtBits | sources/kernel/src/apic.cpp:272-284 | where each field of a local vector table entry lands |
| Apic.InputCount | sources/kernel/src/apic.cpp:396-399 | the number of inputs is 1 to 256 |
| Apic.LastGsi | sources/kernel/src/apic.cpp:462-466 | the last input's GSI, or a value below the first when the sum wraps around 32 bits |
| Apic.ContainsGsi | sources/kernel/src/apic.cpp:462-466 | when nothing wraps, `gsi` is contained exactly when it lies between the first and the last GSI; when the last GSI wraps, nothing is |
| Apic.RedirectIndex | sources/kernel/src/apic.cpp:429 | for a contained GSI, two registers per input from `0x10`, within the I/O APIC's registers |
| Apic.RedirectFlags | sources/kernel/src/apic.cpp:414-427 | the vector, active low, level and masked each land in their bit, and nothing else is set |
| Apic.RedirectEntry | sources/kernel/src/apic.cpp:414-427 | the flags in the low word and the target's id in bits 56-63, with nothing in between |
| Apic.RedirectWrites | sources/kernel/src/apic.cpp:429-431 | two writes to the same I/O APIC, low word at the index and high word at the next one, that together hold the entry |
| Apic.FindIoApic | sources/kernel/src/apic.cpp:486-495 | the first I/O APIC that contains the GSI, or none when none does |
| Apic.SetRedirect | sources/kernel/src/apic.cpp:486-495 | the redirection entry is written to the first I/O APIC that contains the GSI, and nothing is written when none does |
| Apic.IsoTrigger | sources/kernel/src/apic.cpp:434-446 | level triggered exactly when both trigger bits are set |
| Apic.IsoPolarityAsWritten | sources/kernel/src/apic.cpp:448-460 | as written, active high exactly when the polarity bits are `01` |
| Apic.IsoPolarity | sources/kernel/src/apic.cpp:448-460 | active high exactly when the polarity bits are `00` (conforming to the ISA bus) or `01` |
| Apic.ConformingOverrideAsWritten | sources/kernel/src/apic.cpp:450-452 | an override conforming to the bus is edge triggered but, as written, active low where the ISA bus is active high |
| Apic.PolarityDecodersAgree | sources/kernel/src/apic.cpp:448-460 | both polarity decoders agree except on the conforming code |
| Apic.OverrideConfig | sources/kernel/src/apic.cpp:507-512 | the same vector, the override's trigger and its polarity, enabled; the polarity is decoded by the corrected `IsoPolarity` of the apic.cpp:448-460 Findings row, where the code as written calls `GetIsoPolarity` |
| Apic.LegacyRoute | sources/kernel/src/apic.cpp:497-525 | the first override for the IRQ gives its GSI and wiring; without one the IRQ and configuration are kept; the polarity is the corrected `IsoPolarity` of the apic.cpp:448-460 Findings row |
| Apic.FirstOverride | sources/kernel/src/apic.cpp:498-503 | the first override for the IRQ, or none when there is none |
| Apic.SetLegacyRedirect | sources/kernel/src/apic.cpp:497-525 | the IRQ is redirected as its first override says, or as itself when there is none; the polarity is the corrected `IsoPolarity` of the apic.cpp:448-460 Findings row |
| Debug.ModeCode | sources/kernel/include/arch/debug.hpp:11-17 | a mode fits two bits |
| Debug.ModeOf | sources/kernel/include/arch/debug.hpp:11-17 | the mode a two-bit field holds has that field as its code |
| Debug.ConditionCode | sources/kernel/include/arch/debug.hpp:19-26 | a condition fits two bits |
| Debug.ConditionOf | sources/kernel/include/arch/debug.hpp:19-26 | the condition a two-bit field holds has that field as its code |
| Debug.LengthCode | sources/kernel/include/arch/debug.hpp:28-35 | a length fits two bits |
| Debug.LengthOf | sources/kernel/include/arch/debug.hpp:28-35 | the length a two-bit field holds has that field as its code |
| Debug.CodesRoundTrip | sources/kernel/include/arch/debug.hpp:11-35 | every mode, condition and length survives the trip through its code |
| Debug.Field | sources/kernel/include/arch/debug.hpp:135-139 | the two-bit field is made of bits `shift` and `shift + 1` |
| Debug.WithField | sources/kernel/include/arch/debug.hpp:110-116 | the field reads back as the code, and every other bit is kept |
| Debug.FieldApart | sources/kernel/include/arch/debug.hpp:110-132 | replacing one field leaves a field that does not overlap it as it was |
| Debug.ConditionShift | sources/kernel/include/arch/debug.hpp:113 | a condition field starts between bits 16 and 32 |
| Debug.LengthShift | sources/kernel/include/arch/debug.hpp:121 | a length field starts two bits above the condition field |
| Debug.ModeShift | sources/kernel/include/arch/debug.hpp:129 | an enable field starts at bit 8 or below |
| Debug.FieldsDisjoint | sources/kernel/include/arch/debug.hpp:110-132 | the fields of two different breakpoints never overlap |
| Debug.Dr7Bit | sources/kernel/include/arch/debug.hpp:60-78 | each DR7 flag is a bit of the register, never the always-one bit 10 |
| Debug.ConditionAt | sources/kernel/include/arch/debug.hpp:134-140 | the condition read has the field's code |
| Debug.LengthAt | sources/kernel/include/arch/debug.hpp:142-148 | the length read has the field's code |
| Debug.ModeAt | sources/kernel/include/arch/debug.hpp:150-156 | the mode read has the field's code |
| Debug.ConfigAt | sources/kernel/include/arch/debug.hpp:164-170 | the three settings read have the fields' codes |
| Debug.ConfiguredReadsBack | sources/kernel/include/arch/debug.hpp:158-170 | configuring a breakpoint is read back exactly |
| Debug.ConfiguredKeepsOthers | sources/kernel/include/arch/debug.hpp:158-170 | configuring a breakpoint leaves every other breakpoint's settings as they were |
| Debug.ConfiguredChangesOnlyItsFields | sources/kernel/include/arch/debug.hpp:158-162 | configuring a breakpoint changes only its own six bits |
| Debug.RegisterFourClearsExactEnables | sources/kernel/include/arch/debug.hpp:127-131 | register 4, which the index check admits, has its enable field on LE and GE, and disabling it clears both |
| Debug.ConfiguredKeepsExactEnables | sources/kernel/include/arch/debug.hpp:158-162 | configuring one of the four real breakpoints never touches LE or GE |
| Debug.DR7.Load | sources/kernel/include/arch/debug.hpp:87-89 | the register holds the value read |
| Debug.DR7.Of | sources/kernel/include/arch/debug.hpp:80-82 | bit 10 is set and every other bit is kept |
| Debug.DR7.Set | sources/kernel/include/arch/debug.hpp:96-99 | the flag is set and no other bit changes |
| Debug.DR7.Clear | sources/kernel/include/arch/debug.hpp:101-104 | the flag is cleared and no other bit changes |
| Debug.DR7.GetConfig | sources/kernel/include/arch/debug.hpp:164-170 | the settings read have the fields' codes |
| Debug.DR7.SetCondition | sources/kernel/include/arch/debug.hpp:110-116 | only the condition field of the breakpoint changes, to the condition's code |
| Debug.DR7.SetLength | sources/kernel/include/arch/debug.hpp:118-124 | only the length field of the breakpoint changes, to the length's code |
| Debug.DR7.SetMode | sources/kernel/include/arch/debug.hpp:126-132 | only the enable field of the breakpoint changes, to the mode's code |
| Debug.DR7.Configure | sources/kernel/include/arch/debug.hpp:158-162 | the three fields are set and read back as the configuration |
| Debug.Dr6Bit | sources/kernel/include/arch/debug.hpp:183-194 | each DR6 flag is a bit of the register outside the always-one bits |
| Debug.HitFlag | sources/kernel/include/arch/debug.hpp:184-187 | the flag for breakpoint `reg` is bit `reg` |
| Debug.DR6.Load | sources/kernel/include/arch/debug.hpp:203-205 | the register holds the value read |
| Debug.DR6.Of | sources/kernel/include/arch/debug.hpp:196-198 | the always-one bits are set and every other bit is kept |
| Debug.DR6.Set | sources/kernel/include/arch/debug.hpp:212-215 | the flag is set and no other bit changes |
| Debug.DR6.Clear | sources/kernel/include/arch/debug.hpp:217-220 | the flag is cleared and no other bit changes |
| Debug.DetectedIsHitFlag | sources/kernel/include/arch/debug.hpp:226-230 | the corrected `detected` reports exactly bit `reg` |
| Debug.DetectedShiftedByOne | sources/kernel/include/arch/debug.hpp:226-230 | as written, with only breakpoint 0's flag set, register 1 is reported and register 0 is not |
| Debug.DebugState.Of | sources/kernel/include/arch/debug.hpp:247-249 | the state holds the registers and addresses given |
| Debug.DebugState.GetConfig | sources/kernel/include/arch/debug.hpp:293-302 | the breakpoint's address and the settings DR7 holds for it |
| Debug.DebugState.Configure | sources/kernel/include/arch/debug.hpp:286-291 | the breakpoint reads back as configured, and the other breakpoints, DR6 and the exact enables are unchanged |
| Digit.IntegralSize | kernel/include/util/digit.hpp:11-34 | the backing integer is the smallest native size (1, 2, 4 or 8 octets) that holds N octets, and N itself when N is native |
| Digit.Limits | kernel/include/util/digit.hpp:54-58 | `kMin` and `kMax` are the limits of an N-octet integer, signed or unsigned, and bound exactly 256^N values |
| Digit.Clamp | kernel/include/util/digit.hpp:91 | the value is brought within `kMin` and `kMax`, and a value already within them is kept |
| Digit.Octets | kernel/include/util/digit.hpp:92 | the `k` low-order octets of a value |
| Digit.Representation | kernel/include/util/digit.hpp:92 | the object representation of the backing integer has its size in octets |
| Digit.OctetsValue | kernel/include/util/digit.hpp:92 | reading back `k` low-order octets gives the value modulo 256^k |
| Digit.OctetsOfValue | kernel/include/util/digit.hpp:92 | the octets of an octet string's value are that string |
| Digit.FromOctetsRoundTrip | kernel/include/util/digit.hpp:80-93 | any N octets read as an N-octet integer in range, whose octets are those octets again |
| Digit.OctetsRoundTrip | kernel/include/util/digit.hpp:80-93 | an N-octet value written as octets reads back as itself |
| Digit.Stored | kernel/include/util/digit.hpp:90-93 | `store` copies N octets |
| Digit.StoredOctets | kernel/include/util/digit.hpp:90-93 | the octets stored are the N low-order octets of the clamped value |
| Digit.NativeLoadAfterStore | kernel/include/util/digit.hpp:80-84 | for a native size, the as-written load reads back every stored value |
| Digit.NegativeLoadAsWritten | kernel/include/util/digit.hpp:80-84 | as written, a stored `int24_t` -1 loads as 16777215 when the uninitialised byte is 0, and as -1 only when it is `0xFF` |
| Digit.UnsignedLoadAsWritten | kernel/include/util/digit.hpp:80-84 | as written, a stored `uint24_t` 0 loads as `0x1000000` when the uninitialised byte is 1 |
| Digit.Load | kernel/include/util/digit.hpp:80-84 | the corrected load gives an N-octet value in range whose stored octets are the octets read |
| Digit.LoadAfterStore | kernel/include/util/digit.hpp:80-93 | the corrected load after `store` gives the clamped value |
| Digit.Reversed | kernel/include/util/digit.hpp:109 | the octets in reverse order |
| Digit.ReversedTwice | kernel/include/util/digit.hpp:107-111 | byte swapping twice gives the octets back |
| Digit.SizedInteger.constructor | kernel/include/util/digit.hpp:66-68 | the object holds the stored octets of the value, and reads back the clamped value |
| Digit.SizedInteger.Value | kernel/include/util/digit.hpp:73-84 | the value is in range and its stored octets are the object's octets |
| Digit.SizedInteger.Store | kernel/include/util/digit.hpp:90-102 | the octets are those of the clamped value, which reads back |
| Digit.SizedInteger.Byteswap | kernel/include/util/digit.hpp:107-111 | a new object holding the octets in reverse order |
| Package.Find | tool/package/main.cpp:241 | the first occurrence at or after `start`, with none before it, or none at all |
| Package.ReplacedNothing | tool/package/main.cpp:239-245 | text in which the pattern never occurs is left unchanged |
| Package.ReplacedBySelf | tool/package/main.cpp:239-245 | replacing a pattern by itself changes nothing |
| Package.ReplacedLeading | tool/package/main.cpp:239-245 | a leading occurrence followed by text without one: only the leading one is replaced |
| Package.RepoPlaceholder | tool/package/main.cpp:252 | `@REPO@/data/image.sh` with `@REPO@` replaced by `/repo` is `/repo/data/image.sh` |
| Package.ReplaceDone | tool/package/main.cpp:241 | once no occurrence is left past the resume position, the rest of the text is kept |
| Package.ReplacedAtFirst | tool/package/main.cpp:241-244 | the first occurrence is replaced and scanning resumes after it |
| Package.ReplaceStep | tool/package/main.cpp:242-243 | one turn of the loop splices out the first occurrence at or after the resume position and resumes after the inserted text, keeping the final result |
| Package.ReplaceTurnAsWritten | tool/package/main.cpp:241-244 | a turn happens exactly when an occurrence remains; the text grows by `|to| - |from|` and the resume position stays within it |
| Package.EmptyFromNeverEnds | tool/package/main.cpp:241-244 | as written, with an empty `from` every turn finds another occurrence and leaves as much text after the resume position as before, so the loop never ends |
| Package.ReplaceAll | tool/package/main.cpp:239-245 | with a non-empty `from` the result is the text with every occurrence replaced, left to right; with an empty `from` the text is kept |
| Package.ReplaceText | tool/package/main.cpp:247-250 | the result is `ReplaceAll` applied to a copy |
| Package.StatusFromString | tool/package/main.cpp:122-136 | unknown exactly when the text is none of the four status words |
| Package.StatusString | tool/package/main.cpp:105-120 | the stored text reads back as the same status |
| Package.StatusStringInjective | tool/package/main.cpp:105-120 | distinct statuses are stored as distinct text |
| Package.Raised | tool/package/main.cpp:222-227 | the status is kept or becomes the step; a known status never goes down; afterwards the step does not run again |
| Package.Lowered | tool/package/main.cpp:215-220 | the status is kept or becomes the step; it never goes up, and not above the step |
| Package.LoweredRuns | tool/package/main.cpp:203-220 | lowering to a step makes every later step run again |
| Package.PackageDb.constructor | tool/package/main.cpp:141-147 | the database holds the given `targets` table |
| Package.PackageDb.GetPackageStatus | tool/package/main.cpp:191-201 | unknown for a package without a row; otherwise the status its text reads as |
| Package.PackageDb.ShouldRunStep | tool/package/main.cpp:203-206 | a step runs exactly when the status is unknown or below it |
| Package.PackageDb.SetPackageStatus | tool/package/main.cpp:208-213 | the package's row is inserted or replaced and reads back as the status |
| Package.PackageDb.LowerPackageStatus | tool/package/main.cpp:215-220 | the package's status is lowered to the step, and no other package changes |
| Package.PackageDb.RaiseTargetStatus | tool/package/main.cpp:222-227 | the package's status is raised to the step, and no other package changes |
| Stdlib.Abs | sources/sysapi/src/posix/stdlib.cpp:74-84 | a value of the width; non-negative exactly when the input is not the most negative value, which wraps to itself; otherwise the magnitude |
| Stdlib.AbsIntMin | sources/sysapi/src/posix/stdlib.cpp:74-76 | `abs(INT_MIN)` is `INT_MIN` |
| Stdlib.DigitValue | sources/sysapi/src/posix/stdlib.cpp:145-152 | a digit or letter stands for a value below 36 |
| Stdlib.SkipSpace | sources/sysapi/src/posix/stdlib.cpp:118-120 | the first character from `i` on that is not white space, passing only white space |
| Stdlib.DigitsEnd | sources/sysapi/src/posix/stdlib.cpp:144-160 | the first character from `i` on that is not a digit of the base, passing only digits of it |
| Stdlib.DigitsRun | sources/sysapi/src/posix/stdlib.cpp:144-160 | the characters the digit loop passes form a numeral |
| Stdlib.BasePrefix | sources/sysapi/src/posix/stdlib.cpp:130-141 | base 0 takes "0x" or "0X" as hexadecimal and skips it, another leading "0" as octal, anything else as decimal; a given base is kept |
| Stdlib.SignEnd | sources/sysapi/src/posix/stdlib.cpp:118-128 | the white space and the optional sign lie within the text |
| Stdlib.Parse | sources/sysapi/src/posix/stdlib.cpp:116-167 | `end` lies within the text |
| Stdlib.ParseReads | sources/sysapi/src/posix/stdlib.cpp:116-167 | white space, an optional sign, the base prefix, then digits of the base up to `end`, where a non-digit stands; the value is the numeral, negated after a '-' |
| Stdlib.NumeralAppend | sources/sysapi/src/posix/stdlib.cpp:158 | a numeral extended by one digit is worth `value * base + digit` |
| Stdlib.Strtol | sources/sysapi/src/posix/stdlib.cpp:169-175 | the value and `end` are those of the conversion |
| Stdlib.ScanDigits | sources/sysapi/src/posix/stdlib.cpp:143-160 | the loop stops at the first non-digit and accumulates the numeral it passed |
| Stdlib.ParseShift | sources/sysapi/src/posix/stdlib.cpp:118-128 | a skipped leading character moves `end` by one and keeps the value, negated when the character is the sign |
| Stdlib.LeadingSpace | sources/sysapi/src/posix/stdlib.cpp:118-120 | leading white space only moves `end` |
| Stdlib.MinusNegates | sources/sysapi/src/posix/stdlib.cpp:122-125 | a '-' negates the value of what follows it |
| Stdlib.StandardParse | sources/sysapi/src/posix/stdlib.cpp:116-167 | the conversion ISO C specifies: `end` is 0 exactly when no digit is read, and then the value is 0; otherwise `end` is past a digit |
| Stdlib.StandardAgrees | sources/sysapi/src/posix/stdlib.cpp:116-167 | where a digit is read without a hexadecimal prefix, the conversion as written is the ISO C one |
| Stdlib.SignOnlyAsWritten | sources/sysapi/src/posix/stdlib.cpp:122-128 | as written, "-" leaves `end` after the sign where ISO C leaves it at the start |
| Stdlib.HexPrefixAsWritten | sources/sysapi/src/posix/stdlib.cpp:130-141 | as written, "0x1A" in base 16 reads only the "0", where ISO C reads 26 |
| Physical.GetMemoryRange | kernel/src/memory/physical.cpp:32-41 | `[base, base + length)` of exactly `length` bytes, or `[base, UINTPTR_MAX)` with the overflow reported exactly when the sum does not fit in 64 bits |
| Physical.CoversPermutation | kernel/src/memory/physical.cpp:107-111 | rearranging ranges covers the same addresses |
| Physical.NonEmpty | kernel/src/memory/physical.cpp:79-86 | no more ranges than before |
| Physical.NonEmptyKeeps | kernel/src/memory/physical.cpp:79-86 | exactly the empty ranges are dropped, and no address is lost |
| Physical.EraseEmptyRanges | kernel/src/memory/physical.cpp:79-86 | the loop from the back leaves the non-empty ranges in their order |
| Physical.InsertByFront | kernel/src/memory/physical.cpp:107-111 | one more range, sorted by front |
| Physical.InsertByFrontPermutes | kernel/src/memory/physical.cpp:107-111 | inserting keeps every range and adds exactly the new one |
| Physical.SortMemoryRanges | kernel/src/memory/physical.cpp:107-111 | the ranges sorted by front, a permutation of the input |
| Physical.MergeFrom | kernel/src/memory/physical.cpp:88-105 | merging leaves at least one range |
| Physical.MergeStep | kernel/src/memory/physical.cpp:88-105 | one iteration at index `i`: a range that meets the one before is folded into it, otherwise the index moves on |
| Physical.MergeMemoryRanges | kernel/src/memory/physical.cpp:88-105 | the loop gives the merge of the ranges, and no two ranges of the result overlap or touch; the merge keeps the further back (`TakeFurthestBack`), the corrected rule of the physical.cpp:91 Findings row, where the code as written takes the later range's back |
| Physical.JoinCovers | kernel/src/memory/physical.cpp:91 | joining two ranges that meet covers exactly what they cover |
| Physical.JoinStepCovers | kernel/src/memory/physical.cpp:90-94 | replacing two ranges that meet by their join keeps the addresses covered |
| Physical.MergeFromCovers | kernel/src/memory/physical.cpp:88-105 | each merge step keeps the addresses covered, when fronts never decrease |
| Physical.MergedCovers | kernel/src/memory/physical.cpp:88-105 | merging sorted ranges covers exactly the addresses they covered |
| Physical.MergedAsWritten | kernel/src/memory/physical.cpp:91 | as written, `[0, 100)` then `[10, 20)` merge into `[0, 20)` and address 50 is lost; the corrected merge keeps `[0, 100)` |
| Physical.PhysicalMemoryLayout.constructor | kernel/src/memory/physical.cpp:182-186 | the layout holds the usable and the reserved ranges given |
| Physical.PhysicalMemoryLayout.Sanitize | kernel/src/memory/physical.cpp:117-133 | fatal exactly when no usable range is left after dropping empty ones; otherwise both lists are dropped of empty ranges, sorted by front and merged, and no two ranges of either overlap or touch; the merge is the corrected one (`TakeFurthestBack`) of the physical.cpp:91 Findings row |
| Scheduler.TimeoutStep | sources/kernel/src/task/scheduler_queue.cpp:13-37 | asleep exactly while the deadline is after now; discarded exactly when it has passed and the task is finished; otherwise woken, back to idle |
| Scheduler.WakeStep | sources/kernel/src/task/scheduler_queue.cpp:39-41 | the status is kept and the deadline becomes the earliest instant |
| Scheduler.SleepStepAsWritten | sources/kernel/src/task/scheduler_queue.cpp:43-60 | as written, suspended exactly when not finished; the deadline never goes down and becomes the timeout only for a task that was not idle |
| Scheduler.SleepStep | sources/kernel/src/task/scheduler_queue.cpp:43-60 | suspended exactly when not finished, with the deadline raised to the timeout; a finished task is left alone |
| Scheduler.SleepStepAgrees | sources/kernel/src/task/scheduler_queue.cpp:43-60 | both rules agree on every task that is not idle |
| Scheduler.TerminateStep | sources/kernel/src/task/scheduler_queue.cpp:62-79 | the task is finished, closed exactly when it was closed, and keeps its deadline |
| Scheduler.Reap | sources/kernel/src/task/scheduler_queue.cpp:95-103 | a finished task is closed, a suspended one is left as it is |
| Scheduler.IdleStep | sources/kernel/src/task/scheduler_queue.cpp:85-110 | requeued exactly when running, then idle; otherwise reaped |
| Scheduler.RunStep | sources/kernel/src/task/scheduler_queue.cpp:112-138 | run exactly when idle, then running; otherwise reaped |
| Scheduler.KeepStep | sources/kernel/src/task/scheduler_queue.cpp:140-161 | kept exactly when running; otherwise reaped |
| Scheduler.TerminateIdempotent | sources/kernel/src/task/scheduler_queue.cpp:62-79 | terminating twice is terminating once |
| Scheduler.WakeEndsSleep | sources/kernel/src/task/scheduler_queue.cpp:13-41 | after `wake`, the next timeout check never leaves the task asleep |
| Scheduler.SleepHoldsUntilTimeout | sources/kernel/src/task/scheduler_queue.cpp:13-60 | a task put to sleep stays asleep before its timeout and is woken, back to idle, at or after its deadline |
| Scheduler.IdleSleepKeepsDeadline | sources/kernel/src/task/scheduler_queue.cpp:44-45 | as written, an idle task whose deadline has passed is suspended and woken at the very next check, whatever its timeout |
| Scheduler.IdleSleepForeverExample | sources/kernel/src/task/scheduler_queue.cpp:44-45 | as written, a freshly woken idle task put to sleep until the last instant is woken at once; the corrected rule keeps it asleep |
| Scheduler.FinishedIsFinal | sources/kernel/src/task/scheduler_queue.cpp:62-161 | once terminated, a task stays terminated or closed whatever is done to it, and never runs again |
| Scheduler.ClosedIsFinal | sources/kernel/src/task/scheduler_queue.cpp:62-161 | a closed task stays closed |
| Scheduler.TerminateEndsRun | sources/kernel/src/task/scheduler_queue.cpp:62-161 | nothing that follows `terminate` runs the task again |
| Scheduler.SchedulerEntry.CompareExchange | sources/kernel/src/task/scheduler_queue.cpp:20 | the old status is observed; it is swapped exactly when it was the expected one |
| Scheduler.SchedulerEntry.RaiseSleepUntil | sources/kernel/src/task/scheduler_queue.cpp:6-11 | the deadline becomes the larger of itself and the timeout |
| Scheduler.SchedulerEntry.WakeIfTimeout | sources/kernel/src/task/scheduler_queue.cpp:13-37 | the entry and the answer are those of the timeout check |
| Scheduler.SchedulerEntry.WakeUp | sources/kernel/src/task/scheduler_queue.cpp:39-41 | the entry is woken |
| Scheduler.SchedulerEntry.Sleep | sources/kernel/src/task/scheduler_queue.cpp:43-60 | the entry and the answer are those of the corrected sleep rule |
| Scheduler.SchedulerEntry.Terminate | sources/kernel/src/task/scheduler_queue.cpp:62-79 | the entry is terminated |
| Scheduler.SchedulerEntry.IsClosed | sources/kernel/src/task/scheduler_queue.cpp:81-83 | closed exactly when the status is closed |
| Scheduler.FirstIdle | sources/kernel/src/task/scheduler_queue.cpp:217-222 | the first idle entry, with none before it, or the end |
| Scheduler.AwokenGrows | sources/kernel/src/task/scheduler_queue.cpp:163-191 | looking at more entries never wakes fewer |
| Scheduler.SchedulerQueue.constructor | sources/kernel/src/task/scheduler_queue.cpp:279-283 | an empty queue of the capacity with no current and no rescued task |
| Scheduler.SchedulerQueue.TryPush | sources/kernel/src/task/scheduler_queue.cpp:181 | pushed exactly when the queue is not full, at the back |
| Scheduler.SchedulerQueue.MoveTaskToIdle | sources/kernel/src/task/scheduler_queue.cpp:85-110 | the status and the answer are those of the idle transition |
| Scheduler.SchedulerQueue.MoveTaskToRunning | sources/kernel/src/task/scheduler_queue.cpp:112-138 | the status and the answer are those of the run transition |
| Scheduler.SchedulerQueue.KeepTaskRunning | sources/kernel/src/task/scheduler_queue.cpp:140-161 | the status and the answer are those of the keep transition |
| Scheduler.SchedulerQueue.TakeNextTask | sources/kernel/src/task/scheduler_queue.cpp:211-225 | a task is found exactly when an idle one is queued: the first one runs, the entries before it are reaped and those after it stay queued |
| Scheduler.SchedulerQueue.PopAndRun | sources/kernel/src/task/scheduler_queue.cpp:217-222 | one round pops the head and runs it exactly when it is the first idle entry, reaping it otherwise |
| Scheduler.SchedulerQueue.SetCurrentTask | sources/kernel/src/task/scheduler_queue.cpp:193-209 | the task becomes current; the old current task goes through the idle transition and, when still running, back to the queue or to the rescue slot when the queue is full |
| Scheduler.SchedulerQueue.Reschedule | sources/kernel/src/task/scheduler_queue.cpp:227-257 | the CPU resumes exactly when an idle task is queued or the current one is still running, and then a running task is current |
| Scheduler.SchedulerQueue.Enqueue | sources/kernel/src/task/scheduler_queue.cpp:259-277 | the rescued task goes back first; success exactly when both fit, otherwise `OutOfMemory` |
| Scheduler.SchedulerQueue.WakeSleepingTasks | sources/kernel/src/task/scheduler_queue.cpp:163-191 | the entries whose deadline has passed leave the sleeping list, the live ones join the run queue in list order, and the answer counts those that left |
| Scheduler.SchedulerQueue.WakeAll | sources/kernel/src/task/scheduler_queue.cpp:166-188 | the loop leaves the entries still asleep and queues those woken |
| Scheduler.SchedulerQueue.WakeRound | sources/kernel/src/task/scheduler_queue.cpp:167-187 | one round checks the entry and keeps, requeues or drops it |
| Scheduler.SchedulerQueue.RequeueRound | sources/kernel/src/task/scheduler_queue.cpp:169-187 | the list half of a round, once the entry was checked |
| Scheduler.SchedulerQueue.Requeue | sources/kernel/src/task/scheduler_queue.cpp:169-187 | an entry leaves the list exactly when it is not asleep, and joins the run queue exactly when it was woken |
| Scheduler.AllChecked | sources/kernel/src/task/scheduler_queue.cpp:166 | the loop stops once every sleeping entry was checked |
| Scheduler.ListStep | sources/kernel/src/task/scheduler_queue.cpp:167-187 | one round on the lists keeps them those of the entries checked so far |
| Scheduler.WakeEntry | sources/kernel/src/task/scheduler_queue.cpp:167-168 | the answer is the timeout check of the entry |
| Aml.Add32 | kernel/include/acpi/aml.hpp:44 | the cursor arithmetic wraps modulo 2^32 like `uint32_t` |
| Aml.PeekAt | kernel/include/acpi/aml.hpp:53-60 | a byte is under the cursor exactly when the cursor is inside the code, and it is the code's byte there |
| Aml.MatchStep | kernel/include/acpi/aml.hpp:53-60 | the cursor moves by one exactly when a byte is under it and the predicate takes it |
| Aml.ConsumeStep | kernel/include/acpi/aml.hpp:62-64 | the cursor moves by one exactly when the byte under it is the one asked for |
| Aml.ConsumeSeqStep | kernel/include/acpi/aml.hpp:66-80 | a sequence matches exactly when all of it lies inside the code at the cursor; the cursor moves past it then and stays put otherwise |
| Aml.ConsumeSeqSingle | kernel/include/acpi/aml.hpp:62-80 | consuming a one-byte sequence is consuming that byte |
| Aml.ConsumeSeqConcat | kernel/include/acpi/aml.hpp:66-80 | consuming two sequences in turn is consuming their concatenation |
| Aml.SliceConcat | kernel/include/acpi/aml.hpp:74 | a slice equals a concatenation exactly when its two parts equal the two halves |
| Aml.Parser.constructor | kernel/include/acpi/aml.hpp:32-36 | a cursor at offset 0 over the code, starting at the given absolute offset |
| Aml.Parser.Skip | kernel/include/acpi/aml.hpp:44 | the offset grows by the count, modulo 2^32 |
| Aml.Parser.Advance | kernel/include/acpi/aml.hpp:45 | the offset grows by one, modulo 2^32 |
| Aml.Parser.Match | kernel/include/acpi/aml.hpp:53-60 | the answer and new offset are those of the match step |
| Aml.Parser.Consume | kernel/include/acpi/aml.hpp:62-64 | the answer and new offset are those of the consume step |
| Aml.Parser.ConsumeSeq | kernel/include/acpi/aml.hpp:66-80 | the answer and new offset are those of the sequence step |
| Aml.Parser.Subspan | kernel/include/acpi/aml.hpp:86-90 | the new cursor covers the next `count` bytes and keeps the absolute offset; this cursor moves past them |
| Aml.Pad | kernel/include/acpi/aml.hpp:843-847 | `n` underscores |
| Aml.Carets | kernel/include/acpi/aml.hpp:829-832 | the length of the run of `^` that opens the literal |
| Aml.ChunkFrom | kernel/include/acpi/aml.hpp:839-856 | a segment is always 4 characters long, and the scan takes at least one character while any is left |
| Aml.NextSegment | kernel/include/acpi/aml.hpp:860-862 | a `.` after a full segment is skipped, and the scan stays inside the literal |
| Aml.Chunks | kernel/include/acpi/aml.hpp:838-863 | every segment cut from the literal is 4 characters long |
| Aml.NameStart | kernel/include/acpi/aml.hpp:824-833 | the segments begin inside the literal |
| Aml.Keep | kernel/include/acpi/aml.hpp:97 | a full `StaticVector` keeps a prefix of at most 8 segments, and every segment while there is room |
| Aml.KeepAppend | kernel/include/acpi/aml.hpp:858 | adding one more segment keeps it exactly when there is room |
| Aml.StoredSegment | kernel/include/acpi/aml.hpp:858 | a `char[4]` stored as a `StaticString<4>` keeps only its first three characters |
| Aml.StoreAll | kernel/include/acpi/aml.hpp:858 | every segment is stored with its first three characters |
| Aml.LiteralKeepsThree | kernel/include/acpi/aml.hpp:821-866 | the literal as written agrees with the intended one on root, prefix and segment count, and each stored segment is the intended one less its fourth character |
| Aml.Repeat | kernel/include/acpi/aml.hpp:829-832 | `n` copies of a character |
| Aml.Padded | kernel/include/acpi/aml.hpp:843-847 | a short segment is padded with `_` to 4 characters and keeps its characters |
| Aml.PadAll | kernel/include/acpi/aml.hpp:838-863 | every segment padded |
| Aml.ChunkOfSegment | kernel/include/acpi/aml.hpp:839-862 | the scan of one segment reads it, pads it, and resumes past its `.` |
| Aml.ChunksOfJoin | kernel/include/acpi/aml.hpp:838-863 | reading a dotted path gives back its segments, padded |
| Aml.JoinStarts | kernel/include/acpi/aml.hpp:838 | a dotted path begins with its first segment's first character |
| Aml.IntendedLiteralOfPath | kernel/include/acpi/aml.hpp:821-866 | the intended literal of a path names the root or counts its `^` prefixes and gives back the first eight padded segments |
| Aml.PathStart | kernel/include/acpi/aml.hpp:824-833 | `\` names the root, otherwise the `^` run is the prefix, and the segments follow it |
| Aml.CaretsOfRepeat | kernel/include/acpi/aml.hpp:829-832 | `k` carets count as `k` prefixes |
| Aml.LiteralDropsFourthCharacter | kernel/include/acpi/aml.hpp:858 | `"_SB_.PCI0"_aml` as written stores `_SB` and `PCI` where `_SB_` and `PCI0` were meant |
| Aml.ReadSegment | kernel/include/acpi/aml.hpp:839-856 | the loop reads the segment that the scan function describes |
| Aml.ReadSlot | kernel/include/acpi/aml.hpp:841-855 | one pass fills the slot or stops the segment at a `.` |
| Aml.ScanStop | kernel/include/acpi/aml.hpp:843-849 | a `.` pads the rest of the segment and is taken |
| Aml.ScanChar | kernel/include/acpi/aml.hpp:852 | any other character fills the slot and is taken |
| Aml.ChunkFromChar | kernel/include/acpi/aml.hpp:852 | the scan keeps a character other than `.` and goes on |
| Aml.ScanEnd | kernel/include/acpi/aml.hpp:853-854 | past the end of the literal the slot is `_` |
| Aml.FillPadding | kernel/include/acpi/aml.hpp:845-847 | the rest of the segment becomes `_` |
| Aml.ParseLiteral | kernel/include/acpi/aml.hpp:821-866 | the loops build the literal that the scan functions describe |
| Aml.ReadPrefix | kernel/include/acpi/aml.hpp:824-833 | a leading `\` sets the root flag, otherwise the `^` run counted modulo 256 is the prefix, and the segments begin after it |
| Aml.ReadSegments | kernel/include/acpi/aml.hpp:838-863 | the segment loop stores the first eight segments, each less its fourth character |
| Aml.AddSegment | kernel/include/acpi/aml.hpp:839-862 | one pass reads a segment and keeps it if there is room, and the scan moves forward |
| Aml.BuildingStep | kernel/include/acpi/aml.hpp:858 | the loop state after a segment is kept or dropped |
| Aml.ChunksStep | kernel/include/acpi/aml.hpp:838-863 | the literal's segments are the one read, then the rest |
| Aml.StoreAllStep | kernel/include/acpi/aml.hpp:858 | storing one more segment appends it, stored |
| Aml.OnesFor | kernel/include/acpi/aml.hpp:603-609 | 32 set bits exactly for revision 0, 64 set bits otherwise |
| Aml.HeaderAtBounds | kernel/include/acpi/aml.hpp:648-654 | an id inside the table names its header; outside it the header is invalid at offset 0 |
| Aml.InvalidIdHasNoTerm | kernel/include/acpi/aml.hpp:105-111 | `kInvalid` names no term while the table is smaller than 2^32 - 1 |
| Aml.TermAtFound | kernel/include/acpi/aml.hpp:635-643 | a term is found exactly when its id is in the table with the type asked for, at the header's offset |
| Aml.HeaderAtAppend | kernel/include/acpi/aml.hpp:612-618 | a new header is named by the old count and leaves every other id unchanged |
| Aml.NodeBuffer.constructor | kernel/include/acpi/aml.hpp:621-627 | no headers, no error, and the `ones` value of the revision |
| Aml.NodeBuffer.AddTerm | kernel/include/acpi/aml.hpp:612-618 | a header with the 32-bit truncated offset is appended and named by the old count |
| Aml.NodeBuffer.SetInvalid | kernel/include/acpi/aml.hpp:658 | the error flag is set |
| BTreeLeaves.Order | sources/kernel/include/std/container/btree.hpp:107 | the leaf order is at least 3, is the computed order or 3, and fits the 1 KiB node target |
| BTreeLeaves.MinCapacityBounds | sources/kernel/include/std/container/btree.hpp:327-329 | the minimum fill is at least one and at most half the order, so both halves of a split meet it |
| BTreeLeaves.SplitLowShape | sources/kernel/include/std/container/btree.hpp:395-398 | inserting below the middle into the lower half and popping its top gives the sorted run with the key inserted |
| BTreeLeaves.SplitHighShape | sources/kernel/include/std/container/btree.hpp:399-401 | inserting at or above the middle into the upper half and popping its bottom gives the sorted run with the key inserted |
| BTreeLeaves.Leaf.constructor | sources/kernel/include/std/container/btree.hpp:163-169 | an empty, sorted leaf with `kOrder` slots |
| BTreeLeaves.Leaf.Insert | sources/kernel/include/std/container/btree.hpp:171-194 | an existing key has its value replaced, even when full; a new key goes to its lower bound with later entries shifted up; `eFull` leaves a full leaf unchanged; the leaf stays sorted |
| BTreeLeaves.Leaf.Place | sources/kernel/include/std/container/btree.hpp:186-190 | the count grows by one and the entry is inserted at the index |
| BTreeLeaves.Leaf.Remove | sources/kernel/include/std/container/btree.hpp:233-239 | the entry at the index goes, later entries move down, and sortedness is kept |
| BTreeLeaves.Leaf.PopBack | sources/kernel/include/std/container/btree.hpp:132-137 | the last entry is returned and dropped |
| BTreeLeaves.Leaf.PopFront | sources/kernel/include/std/container/btree.hpp:139-148 | the first entry is returned and the rest move down |
| BTreeLeaves.Leaf.LowerBoundIndex | sources/kernel/include/std/container/btree.hpp:247-251 | the position of the first key not below `k` |
| BTreeLeaves.Leaf.UpperBoundIndex | sources/kernel/include/std/container/btree.hpp:241-245 | the position of the first key above `k` |
| BTreeLeaves.Leaf.IndexOfKey | sources/kernel/include/std/container/btree.hpp:262-268 | `SIZE_MAX` exactly when the key is absent; otherwise a live slot holding it |
| BTreeLeaves.Leaf.Find | sources/kernel/include/std/container/btree.hpp:278-284 | the value stored under the key, present exactly when the key is |
| BTreeLeaves.Leaf.ContainsInNode | sources/kernel/include/std/container/btree.hpp:420-427 | true exactly when the key is live in the leaf |
| BTreeLeaves.Leaf.Claim | sources/kernel/include/std/container/btree.hpp:347-367 | the other leaf's entries are appended after this one's, the other is left empty, and order is kept when every key of this leaf is below the other's |
| BTreeLeaves.Leaf.MoveTopHalf | sources/kernel/include/std/container/btree.hpp:382-393 | the entries from `half` up move to the empty leaf in order, and `half` entries stay |
| BTreeLeaves.Leaf.SplitInto | sources/kernel/include/std/container/btree.hpp:370-406 | the lower entries, the midpoint and the upper entries are, in order, the old entries with the new one inserted; both halves are sorted and neither is under-filled |
| BTreeLeaves.Leaf.SplitLow | sources/kernel/include/std/container/btree.hpp:395-398 | the key below the middle joins the lower half and its top becomes the midpoint |
| BTreeLeaves.Leaf.SplitHigh | sources/kernel/include/std/container/btree.hpp:399-401 | the key at or above the middle joins the upper half and its bottom becomes the midpoint |
| BTreeLeaves.MoveRange | sources/kernel/include/std/container/btree.hpp:390-391 | `std::move` copies `n` elements into the destination range and leaves the rest of it alone |
| BTreeMapNodes.LeafOrder | sources/kernel/include/std/container/btree_map.hpp:65 | the leaf order is at least 3, and unless it is 3 its entries fit in the node target beside the header |
| BTreeMapNodes.InternalOrder | sources/kernel/include/std/container/btree_map.hpp:247 | the internal order is at least 3, and unless it is 3 its keys and child pointers fit in the node target beside the header |
| BTreeMapNodes.InsertKeyLookups | sources/kernel/include/std/container/btree_map.hpp:172-204 | insertion keeps the keys strictly sorted, adds exactly the new key, and afterwards the key finds the new value while every other key finds what it found before |
| BTreeMapNodes.JoinIntoLow | sources/kernel/include/std/container/btree_map.hpp:165-166 | inserting below the middle into the lower half is inserting into the whole run |
| BTreeMapNodes.JoinIntoHigh | sources/kernel/include/std/container/btree_map.hpp:167-168 | inserting at or above the middle into the upper half is inserting into the whole run |
| BTreeMapNodes.LeafNode.constructor | sources/kernel/include/std/container/btree_map.hpp:120-122 | an empty, sorted leaf of `kLeafOrder` slots |
| BTreeMapNodes.LeafNode.Insert | sources/kernel/include/std/container/btree_map.hpp:172-204 | `eFull` exactly when the key is new and the leaf full, and then nothing changes; otherwise an existing key has its value replaced and a new key is inserted in order; the leaf stays sorted |
| BTreeMapNodes.LeafNode.Place | sources/kernel/include/std/container/btree_map.hpp:184-190 | the count grows by one and the entry is inserted at the index, later entries shifted up |
| BTreeMapNodes.LeafNode.TransferTo | sources/kernel/include/std/container/btree_map.hpp:144-153 | the top `size` entries move in order to the empty leaf and this leaf keeps the rest |
| BTreeMapNodes.LeafNode.SplitLeafInto | sources/kernel/include/std/container/btree_map.hpp:155-170 | the two leaves hold, in order, the old entries with the new one inserted, both sorted, one entry more than the order between them |
| BTreeMapNodes.LeafNode.SplitLow | sources/kernel/include/std/container/btree_map.hpp:165-166 | a key below the middle joins the lower half |
| BTreeMapNodes.LeafNode.SplitHigh | sources/kernel/include/std/container/btree_map.hpp:167-168 | a key at or above the middle joins the upper half |
| BTreeMapNodes.LeafNode.PopHead | sources/kernel/include/std/container/btree_map.hpp:209-217 | the first entry is returned and the rest move down one slot |
| BTreeMapNodes.LeafNode.PopTail | sources/kernel/include/std/container/btree_map.hpp:219-224 | the last entry is returned and dropped |
| BTreeMapNodes.InternalNode.constructor | sources/kernel/include/std/container/btree_map.hpp:312-314 | no separators and room for `kInternalOrder` of them |
| BTreeMapNodes.InternalNode.Insert | sources/kernel/include/std/container/btree_map.hpp:350-383 | `eFull` exactly when the node is full, and then nothing changes; otherwise the leaf's minimum goes in at its upper bound and the leaf becomes the child just after it |
| BTreeMapNodes.InternalNode.Place | sources/kernel/include/std/container/btree_map.hpp:360-370 | the count grows by one, the separator is inserted at the index and the child just after it |
| BTreeMapNodes.InternalInsertKeepsSorted | sources/kernel/include/std/container/btree_map.hpp:354-370 | an absent key inserted at its upper bound keeps the separators strictly sorted |
| BTreeMapNodes.ShiftRight | sources/kernel/include/std/container/btree_map.hpp:362-367 | the shift loop moves a range up one slot and leaves the rest of the array alone |
| BTreeTrees.LeafIndexOf | sources/kernel/include/std/container/btree.hpp:262-268 | the answer is `SIZE_MAX` or a slot holding the key |
| BTreeTrees.LeafIndexOfMisses | sources/kernel/include/std/container/btree.hpp:262-268 | in a sorted leaf the answer is `SIZE_MAX` exactly when the key is absent |
| BTreeTrees.ChildOfKey | sources/kernel/include/std/container/btree.hpp:537-539 | in a search tree, the child `upperBound` picks is the only child whose keys can include a key that is not a separator |
| BTreeTrees.NodeContainsIsMembership | sources/kernel/include/std/container/btree.hpp:1496-1510 | `nodeContains` answers exactly whether the tree stores the key |
| BTreeTrees.DescendKeepsKey | sources/kernel/include/std/container/btree.hpp:1500-1508 | past the separators, the key is stored in the node exactly when it is stored in the child `upperBound` picks |
| BTreeTrees.HoldsHas | sources/kernel/include/std/container/btree.hpp:1496-1510 | a key held beside a value is a stored key |
| BTreeTrees.ChildKeyNotSeparator | sources/kernel/include/std/container/btree.hpp:1490 | a key stored below a child is none of the parent's separators |
| BTreeTrees.HoldsIsUnique | sources/kernel/include/std/container/btree.hpp:1734-1754 | a search tree holds at most one value per key |
| BTreeTrees.ReadMinKeyIsLeast | sources/kernel/include/std/container/btree.hpp:1218-1225 | `readMinKey` returns a stored key, and no stored key is below it |
| BTreeTrees.FindInNode | sources/kernel/include/std/container/btree.hpp:1734-1754 | the descent finds an entry exactly when the key is stored, and the value it finds is the one held under the key |
| BTreeTrees.HasSomeValue | sources/kernel/include/std/container/btree.hpp:1496-1510 | a tree stores a key exactly when it holds some value under it |
| BTreeTrees.OnlyChildHolds | sources/kernel/include/std/container/btree.hpp:1500-1508 | a key that is not a separator is held by no child other than the one `upperBound` picks |
| BTreeTrees.SeparatorHoldsOnly | sources/kernel/include/std/container/btree.hpp:1747-1749 | a separator is held beside its own value and no other |
| BTreeTrees.CutInternal | sources/kernel/include/std/container/btree.hpp:961-977 | cutting a node at a separator gives a search tree below it and one above it, which together with the separator hold what the node held |
| BTreeTrees.CutLeftHalf | sources/kernel/include/std/container/btree.hpp:961-977 | the separators and children left of the cut form a search tree below the cut separator |
| BTreeTrees.CutRightHalf | sources/kernel/include/std/container/btree.hpp:961-977 | the separators and children right of the cut form a search tree above the cut separator |
| BTreeTrees.CutLeaf | sources/kernel/include/std/container/btree.hpp:370-406 | cutting a sorted leaf at a slot gives two search trees on either side of that slot's key, which together with it hold what the leaf held |
| BTreeTrees.ReplaceChild | sources/kernel/include/std/container/btree.hpp:1470-1494 | putting a child's insertion result in its place keeps a search tree that holds every other key as before |
| BTreeInserts.GrownHasSomeValue | sources/kernel/include/std/container/btree.hpp:1470-1494 | an insertion result stores a key exactly when it holds some value under it |
| BTreeInserts.InsertedHas | sources/kernel/include/std/container/btree.hpp:1470-1494 | once the entries are settled, the stored keys are the old ones plus the inserted key |
| BTreeInserts.LeafUpdate | sources/kernel/include/std/container/btree.hpp:182-183 | overwriting a key's value in a leaf changes what that key holds and nothing else |
| BTreeInserts.LeafAdd | sources/kernel/include/std/container/btree.hpp:186-190 | adding an absent key to a leaf adds that entry and nothing else |
| BTreeInserts.InsertInLeafIsInsertion | sources/kernel/include/std/container/btree.hpp:1471-1476 | inserting into a sorted leaf gives a valid result that holds the new value under the key and every other entry as before |
| BTreeInserts.SplitBetween | sources/kernel/include/std/container/btree.hpp:1489-1492 | everything the child's insertion result stores lies between the separators around that child |
| BTreeInserts.WidenedIsSearchTree | sources/kernel/include/std/container/btree.hpp:1460-1467 | the parent with the split child's midpoint and new child added is a search tree whose children fit the order |
| BTreeInserts.WidenedChild | sources/kernel/include/std/container/btree.hpp:1460-1467 | each child of the widened parent lies between its separators and fits the order |
| BTreeInserts.WidenedHalf | sources/kernel/include/std/container/btree.hpp:1460-1467 | the two halves of the split child sit on either side of the midpoint |
| BTreeInserts.WidenedOther | sources/kernel/include/std/container/btree.hpp:1460-1467 | every other child keeps its separators |
| BTreeInserts.SeparatorHoldsInsert | sources/kernel/include/std/container/btree.hpp:900-906 | the separators with the midpoint inserted hold the midpoint and everything they held |
| BTreeInserts.ChildHoldsPair | sources/kernel/include/std/container/btree.hpp:900-906 | the children with one replaced by two halves hold what the halves hold and what the others held |
| BTreeInserts.WidenedHolds | sources/kernel/include/std/container/btree.hpp:1460-1467 | the widened parent holds the new value under the key and every other entry as before |
| BTreeInserts.CutFits | sources/kernel/include/std/container/btree.hpp:961-977 | both halves that `splitInternalNode` cuts from a full widened node fit the order |
| BTreeInserts.AddChildIsInsertion | sources/kernel/include/std/container/btree.hpp:1444-1467 | the parent that takes a child's split is a valid result holding the inserted entry |
| BTreeInserts.UpdateSeparator | sources/kernel/include/std/container/btree.hpp:1479-1484 | overwriting a separator's value keeps a search tree and changes only that key's value |
| BTreeInserts.SeparatorInsertion | sources/kernel/include/std/container/btree.hpp:1479-1484 | insertion meeting the key as a separator overwrites the value in place |
| BTreeInserts.KeyBelowSeparators | sources/kernel/include/std/container/btree.hpp:1479-1490 | a key `upperBound` does not find just before its slot is none of the separators |
| BTreeInserts.ChildInsertion | sources/kernel/include/std/container/btree.hpp:1486-1492 | insertion going down to a child is a valid result holding the inserted entry |
| BTreeInserts.InsertInNodeIsInsertion | sources/kernel/include/std/container/btree.hpp:1470-1494 | `insertInto` on a search tree within the order gives one tree, or two and the midpoint between them, still within the order, holding the new value under the key and every other entry as before |
| BTreeInserts.NewRootIsSearchTree | sources/kernel/include/std/container/btree.hpp:1385-1409 | the new root over a split is a search tree within the order holding what the split held |
| BTreeErases.NoKeysHasNothing | sources/kernel/include/std/container/btree.hpp:1649-1660 | a subtree without keys stores no key |
| BTreeErases.SomeKey | sources/kernel/include/std/container/btree.hpp:1574 | a subtree with keys stores some key |
| BTreeErases.ErasedHas | sources/kernel/include/std/container/btree.hpp:1977-1983 | once the entries are settled, the stored keys are the old ones less the erased key |
| BTreeErases.PopBackLeaf | sources/kernel/include/std/container/btree.hpp:1575-1576 | popping a sorted leaf's last entry takes its greatest key and leaves every other entry |
| BTreeErases.PopLastSeparator | sources/kernel/include/std/container/btree.hpp:1573-1582 | when the rightmost subtree holds nothing, the last separator is the greatest key and dropping it leaves every other entry |
| BTreeErases.PromoteBackTakesMax | sources/kernel/include/std/container/btree.hpp:1573-1582 | `promoteBack` takes out an entry the tree held whose key is the greatest, leaving a search tree within the order that holds every other entry |
| BTreeErases.PromoteIntoLast | sources/kernel/include/std/container/btree.hpp:1578-1581 | `promoteBack` through the rightmost child takes the greatest entry |
| BTreeErases.LeafRemoval | sources/kernel/include/std/container/btree.hpp:1594-1601 | removing the key's slot from a leaf leaves a sorted leaf holding every other entry |
| BTreeErases.ReplaceKeepsSorted | sources/kernel/include/std/container/btree.hpp:1611 | a separator replaced by a key strictly between its neighbours keeps the separators sorted |
| BTreeErases.PromotedIsSearchTree | sources/kernel/include/std/container/btree.hpp:1603-1614 | the promoted entry in the erased separator's place keeps a search tree within the order |
| BTreeErases.PromotedHolds | sources/kernel/include/std/container/btree.hpp:1603-1614 | after promotion the node holds exactly the old entries other than the erased key's |
| BTreeErases.DroppedSeparator | sources/kernel/include/std/container/btree.hpp:1603-1614 | a separator whose left subtree holds nothing goes together with that subtree, leaving every other entry |
| BTreeErases.SeparatorRemoval | sources/kernel/include/std/container/btree.hpp:1603-1614 | erasing a key found as a separator leaves a search tree within the order holding every other entry |
| BTreeErases.ChildRemoval | sources/kernel/include/std/container/btree.hpp:1734-1754 | erasing a key below a child removes it from that child and leaves every other entry |
| BTreeErases.EraseInNodeIsRemoval | sources/kernel/include/std/container/btree.hpp:1977-1983 | `erase(find(key))` on a search tree within the order leaves a search tree within the order holding every entry except the key's |
| BTreeErases.CollapseRootKeeps | sources/kernel/include/std/container/btree.hpp:1647-1665 | collapsing an empty root keeps a search tree within the order and every entry |
| BTreeMaps.BTreeMap.constructor | sources/kernel/include/std/container/btree.hpp:1923-1926 | an empty map with no node, whose nodes hold `Leaf::kOrder` entries |
| BTreeMaps.BTreeMap.Clear | sources/kernel/include/std/container/btree.hpp:2030-2035 | afterwards the map is empty and holds no key |
| BTreeMaps.BTreeMap.ContainsKey | sources/kernel/include/std/container/btree.hpp:1985-1991 | true exactly when the map stores the key |
| BTreeMaps.BTreeMap.Find | sources/kernel/include/std/container/btree.hpp:1993-1999 | a value is found exactly when the key is stored, and it is the one value stored under it |
| BTreeMaps.BTreeMap.Insert | sources/kernel/include/std/container/btree.hpp:1960-1971 | afterwards the key stores the new value and only it, every other entry is as before, and the stored keys are the old ones plus the key |
| BTreeMaps.BTreeMap.Remove | sources/kernel/include/std/container/btree.hpp:1973-1975 | afterwards the key is not stored and every other entry is as before |

## Left out

- Scheduler.SchedulerEntry.CompareExchange: the atomic compare-exchange loops of `wakeIfTimeout`, `sleep`, `terminate` and the queue transitions (sources/kernel/src/task/scheduler_queue.cpp:13-161) run as sequential steps on one CPU. A failed exchange returns the status it observed, and the retry then succeeds. Interleavings with other CPUs are not modelled.
- Scheduler.TimeoutStep: the `KM_PANIC` arms of the kernel become preconditions rather than modelled panics. This covers a running task in the sleep queue (scheduler_queue.cpp:23). The same holds for `CanWake` in `Scheduler.SchedulerEntry.WakeIfTimeout`.
- Scheduler.IdleStep, Scheduler.RunStep, Scheduler.KeepStep: the panics for an entry already in the target state, or closed while queued (scheduler_queue.cpp:90-158), become the preconditions `Descheduling` and `Queued`. The same holds for `MoveTaskToIdle`, `MoveTaskToRunning` and `KeepTaskRunning` of `Scheduler.SchedulerQueue`.
- Scheduler.SchedulerQueue.TakeNextTask: the precondition `Poppable` (no queued entry is running) stands for the panics the transitions raise. The same holds for `PopAndRun` and `Reschedule`.
- Scheduler.SchedulerQueue.SetCurrentTask: the `KM_ASSERT`s of lines 194-195 and 203 are preconditions.
- Scheduler.SchedulerQueue.WakeSleepingTasks: requires that the run queue has room for every task woken. The source asserts `tryPush` at line 180 and has no failure path.
- Scheduler.SchedulerQueue.Reschedule: the register state copied into and out of the task (`TaskState`) is an opaque value. `scheduler_queue.hpp`, which declares the entry queue, is not part of this model; the queue is a bounded FIFO of the declared capacity.
- Heaps.TlsfHeap.Grow: requires that the grown block does not consume the heap's top "null block" (`GrowConsumesNullBlock`). The source asserts this case away. The same holds for `Heaps.TlsfHeap.Resize`.
- Heaps.TlsfHeap.Validate: the heap's segregated free lists and their two-level bitmaps (heap.cpp:221-247, 497-522) are not modelled. The heap is its physical block list, and a free block's list membership is implied by its free flag. The allocation entry points that search those lists are not modelled: `malloc`, `aligned_alloc`, `allocBestFit`, `findFreeBlock` and `allocateWithHint` (heap.cpp:72-96, 297-299, 426-473). Neither are `splitv` (599-682), `addPool` (192-219) and `reset`.
- Heaps.TlsfHeap.Create: the `OutOfMemory` answers when the block pool or the free-list array cannot be allocated (sources/kernel/src/memory/heap.cpp:129-139) are not modelled. Heap operations that need a new control block always get one. The range must lie below 2^64, the reach of `size_t`.
- MemoryManagers.MemoryManager.Allocate: a failure of the map insertion (out of memory) is not modelled. A failure of the heap allocation is a parameter.
- MemoryManagers.MemoryManager.Release: modelled only for the ranges `ReleaseModelled` admits. These are a range that no segment reaches, a range within the one segment it first reaches, a range that starts at a segment's back and ends at the next segment's back, and a range that starts at the last segment's back. The general walk of `release` over several segments (sources/kernel/src/system/pmm.cpp:446-542) is not modelled.
- MemoryManagers.MemoryManager.Retain: modelled only for a range inside one segment (`RetainModelled`). The walk of `retain` over several segments (pmm.cpp:260-341) is not modelled. The owner count is an unbounded `nat`: the 8-bit width of the count (`uint8_t(segment.owners + 1)` in sources/kernel/src/system/pmm.cpp:232, and the `uint8_t` copies when a segment is split) is not modelled, so the wrap of a 256th retain to 0 owners is not captured.
- RangeAllocation.AllocateSpaceHint: requires a non-empty hint. An empty hint with a range whose aligned part is empty would split around `[0, 0)`.
- RangeAllocation.ClaimRangeIfAvailable: requires a valid request range (front not above back). The source does not check this.
- RangeAllocation.RangeAllocator.Allocate: requires a size of at least one byte when a hint is given.
- Stdlib.Parse: the value is an unbounded integer. Overflow of `long` in `strtoAny`'s accumulation (stdlib.cpp:143-160) is not modelled, and neither is the missing `ERANGE` handling. The same holds for `Stdlib.Strtol` and `Stdlib.ScanDigits`. The C locale is assumed for the character classes, because `ctype.cpp` is not part of this model.
- Physical.PhysicalMemoryLayout.Sanitize: the `ErrorList` entries and messages that `sanitize` and the merge report (kernel/src/memory/physical.cpp:79-105) are not modelled. Neither are the carving of the boot setup areas and the subtraction of reserved ranges after line 133. `std::sort`'s order among equal ranges is not fixed; the model sorts stably.
- Physical.SortMemoryRanges: sorts by insertion. The result is proved sorted and a permutation, which is all that `std::sort` promises.
- BTreeMapNodes.LeafNode.SplitLeafInto: requires that the new key is absent. Callers split only after `insert` answered `eFull`, which happens only for an absent key.
- BTreeMaps.BTreeMap.Insert: node allocation failure (`OutOfMemory`) and the `InsertMemoryTracker` are not modelled. The tree is a value, without parent pointers or node identity.
- BTreeMaps.BTreeMap.Remove: the rebalancing and merging of under-filled nodes after an erase (btree.hpp:1135-1183, 1512-1542, 1635-1732) are not modelled. The model keeps every node within the order and drops an emptied subtree together with its separator, and a root left without keys collapses. The fill bounds that rebalancing restores are not stated.
- BTreeLeaves.Leaf.Insert: models `insertViaLowerBound`, the configured strategy (`kUseLowerBoundForLeafInsert`). `insertViaScan` is not modelled. The same holds for `indexOfScan` in `BTreeLeaves.Leaf.IndexOfKey`.
- Internal-node operations of btree.hpp (`rebalanceLeafNodes`, `mergeLeafNodes`, `claimInternal`, `transferInto`, the iterator) are modelled only as value-tree steps, not on arrays.
- Deques.Deque.Get: the `remove` and `erase` members of `FixedSizeDeque` (sources/kernel/include/std/fixed_deque.hpp:114-138) are not modelled.
- TableAllocators.PageTableAllocator.AllocateBlock: the `allocate` entry point with its defragment-and-retry step (table_allocator.cpp:129-145) is not modelled. Neither are `AllocateHead` (60-83), `allocateList`, `allocateExtra` and `deallocateList` (147-202), `defragment` (220-247) and `contains` (263). The `KM_CHECK` checks of the list's back links are not modelled, because the list is a sequence.
- Vectors.Vector.constructor: construction from iterators or ranges, copying and moving, and `emplace_back` are not modelled. Elements are values; constructors and destructors of `T` are not modelled.
- Uuids.Of: the generators of version 1, 3, 6 and 7 UUIDs (clocks and hashing) are not modelled. Neither are `uuid::of(a, b, c, d, e)` from numbers, `MacAddress`, and the parsing variants of `uuid.cpp` other than the textual form.
- Debug.DR7.Configure: loading and storing the debug registers (privileged register I/O) is not modelled, and neither are the `Format` specialisations.
- Digit.Load: for `N = 8` the source's constant expressions for `kMax` and `kMin` shift past the width of the type. The model uses the exact limits of an 8-octet integer.
- Acpi.AcpiTables.constructor: mapping tables into virtual memory, the FADT and DSDT mapping, `has8042Controller` and the debug log are not modelled. Tables are byte sequences.
- SmBios.FindSmbiosTables: mapping the tables into memory is not modelled. Memory is a byte sequence given to the model.
- Package.PackageDb.GetPackageStatus: the package database (SQLite), XML, network and filesystem I/O and the dependency table are not modelled. The status map is a `map`.
- Chrono.FromDaysOfDaysSinceEpoch: the clocks (`now()`), `hh_mm_ss` and the floating-point duration paths are not modelled.
- Tarfs.ParseTar: errors reading the media are not modelled, and a read returns the bytes the request covers. The 64-bit overflow of `getSize() + offset` is not modelled. Path verification (`VerifyPathText`) is a parameter of `ConvertTarPath`.
- Apic.SetRedirect: register writes are modelled as the sequence of (register, value) writes they make. The MMIO itself is not modelled.

## Findings

| source | as written | input that shows it | evidently intended | confidence | as-written member | corrected member |
|---|---|---|---|---|---|---|
| sources/common/include/common/range.hpp:78-83 | `overlaps` compares with `<=`, so ranges that only touch count as overlapping | `[0x1000, 0x2000)` against `[0, 0x1000)` | two half-open ranges overlap only when they share a byte | not executed | Ranges.OverlapsAsWrittenCounterexamples | Ranges.OverlapsMeaning |
| sources/common/include/common/range.hpp:94-98 | `intersects` tests only whether one range's ends fall inside the other | `[0x2000, 0x3000)` against `[0x1000, 0x4000)` as seen from the inner range | a range that encloses another intersects it | not executed | Ranges.IntersectsAsWrittenMissesEnclosure | Ranges.IntersectsMeaning |
| sources/kernel/include/memory/range_allocator.hpp:64-101 | marking an empty used area splits around it forever | empty used area at 0x2000 in `[0x1000, 0x3000)` | an empty used area leaves the free ranges unchanged | not executed | RangeAllocation.MarkUsedAreaEmptyNeverEnds | RangeAllocation.MarkUsedArea |
| sources/kernel/include/memory/paging.hpp:128-130 | the memory type is read back from the PAT bits without the index mapping | the boot PAT layout: write-back is stored and read back as index 0 (uncached) | reading an entry's memory type returns the type written | not executed | PageBuilders.WriteBackReadsAsUncachedAsWritten | PageBuilders.PatIndexRoundTrip |
| kernel/include/util/uuid.hpp:219-235 | the variant is decoded from bit patterns that do not follow section 4.1 of RFC 9562 | variant octet 0x25, or 0xC0 | the variant is read from the leading bits of octet 8 as section 4.1 of RFC 9562 defines | not executed | Uuids.VariantFieldAsWrittenMisreads | Uuids.VariantField |
| kernel/include/util/uuid.hpp:237-241 | setting the variant masks away the low bits of octet 8 | octet 0xFF with the RFC 9562 variant gives 0x81 instead of 0xBF | only the variant bits change | not executed | Uuids.SetVariantFieldAsWrittenDropsBits | Uuids.SetVariantField |
| sources/kernel/include/util/format.hpp:128-129 | a negative value is cast to unsigned rather than negated | the 8-bit value -1 formats as "-FF" | a negative value formats as a minus sign and its magnitude ("-1") | not executed | Formats.FormatIntAsWrittenMisprintsNegative | Formats.FormatInt |
| kernel/include/util/digit.hpp:80-84 | `load` copies N octets into a wider integer whose remaining octets are never initialised and are not sign-extended | an `int24_t` holding -1 over a stale zero octet loads as 16777215 | the stored value is loaded back, sign-extended | not executed | Digit.NegativeLoadAsWritten | Digit.LoadAfterStore |
| sources/kernel/include/arch/debug.hpp:226-230 | the detected breakpoint index is off by one | only B0 set reports register 1 | the index of the set hit flag | not executed | Debug.DetectedShiftedByOne | Debug.DetectedIsHitFlag |
| sources/kernel/include/arch/debug.hpp:127-131 | configuring register 4 clears enable bits by a shift past the enable field | configure register 4 | configuring one register keeps the other registers' enables | not executed | Debug.RegisterFourClearsExactEnables | Debug.ConfiguredKeepsExactEnables |
| sources/kernel/src/apic.cpp:448-460 | polarity `00` (conforming to the bus) is mapped to the wrong pin polarity | an override with polarity bits 00 | a conforming override uses the bus default polarity | not executed | Apic.ConformingOverrideAsWritten | Apic.IsoPolarity |
| sources/kernel/include/fs2/tarfs.hpp:26 | the octal reader reads up to 12 characters, running past an 8-character field | a checksum field of eight octal digits followed by the type flag '5' is read as nine digits | a field is read only within its own width | not executed | Tarfs.ChecksumOverread | Tarfs.TarNumber |
| sources/kernel/src/smbios.cpp:61-63 | the string scan stops at the double NUL before it counts the string that ends there | `[1, 4, 0, 0, 0x41, 0, 0]` | every string of the table is found | not executed | SmBios.LastStringLost | SmBios.GetStringEntry |
| sources/kernel/src/smbios.cpp:233 | the error of the 64-bit entry point is dropped when no 32-bit entry point exists | a 64-bit entry point with a bad checksum and no 32-bit entry point | the 64-bit entry point's error is reported | not executed | SmBios.LastErrorDropped | SmBios.FindSmbiosTables |
| sources/kernel/src/acpi/acpi.cpp:190-203 | an entry of length 0 makes the walk of the MADT stand still | one entry of length 0 | the walk stops at a malformed entry | not executed | Acpi.ZeroLengthStalls | Acpi.EntryOffsets |
| sources/sysapi/src/posix/stdlib.cpp:122-128 | a lone sign is consumed and reported as the end of a number | "-" | no conversion: the end pointer is the start of the text | not executed | Stdlib.SignOnlyAsWritten | Stdlib.StandardParse |
| sources/sysapi/src/posix/stdlib.cpp:130-141 | the `0x` prefix is not skipped in base 16 | "0x1A" in base 16 | the value 26, as C's `strtol` gives | not executed | Stdlib.HexPrefixAsWritten | Stdlib.StandardAgrees |
| kernel/src/memory/physical.cpp:91 | merging overwrites the back of an enclosing range with the back of the range inside it | `[0, 100)` followed by `[10, 20)` | merged ranges cover every byte the inputs covered | not executed | Physical.MergedAsWritten | Physical.MergedCovers |
| sources/kernel/src/memory/heap.cpp:353-357 | growing into a whole free neighbour merges the wrong way round | grow a 16-byte block to 32 bytes into a 16-byte free neighbour | the grown block covers both blocks and the neighbour is gone | not executed | HeapBlocks.GrowAsWrittenOverlapsNext | HeapBlocks.GrowFacts |
| sources/kernel/src/memory/heap.cpp:301-311 | `resizeBlock` updates the size only when the free-list index changes | grow by 2 bytes into a 100-byte free neighbour | the neighbour's size always shrinks by the amount taken | not executed | HeapBlocks.GrowAsWrittenKeepsStaleSize | Heaps.TlsfHeap.Grow |
| kernel/include/acpi/aml.hpp:858 | a name segment stores only three of its four characters | "_SB_.PCI0" | each segment keeps all four characters | not executed | Aml.LiteralDropsFourthCharacter | Aml.IntendedLiteralOfPath |
| sources/kernel/include/std/fixed_deque.hpp:105 | the range check uses `>` where `>=` is needed, so `get(count)` reads an empty slot | one element in a two-slot ring, `get(1)` | an index at or past the count gives the first entry | not executed | Deques.ReadPastEndAsWritten | Deques.Deque.Get |
| sources/kernel/src/system/pmm.cpp:423-426 | a release that starts below a segment and ends past it reports NotFound | segments `[0, 10)` and `[20, 30)`, release `[10, 40)` | a range that covers an owned segment is found | not executed | MemoryManagers.ReleaseAsWrittenMissesInnerSegment | MemoryManagers.FindsNothingIffUnowned |
| tool/package/main.cpp:241-244 | an empty pattern is found again at every resume position, so the loop never ends | an empty `from`, whatever `to` is | the text is left as it is | not executed | Package.EmptyFromNeverEnds | Package.ReplaceAll |
| sources/kernel/src/task/scheduler_queue.cpp:44-45 | the idle path, which succeeds at the first exchange, never records `timeout`, so an idle task keeps its old deadline; other live statuses raise the deadline and then succeed | an idle task woken, then put to sleep until the last instant, is woken at once | a sleeping task stays asleep until its new deadline | not executed | Scheduler.IdleSleepKeepsDeadline | Scheduler.SleepHoldsUntilTimeout |
