# Verified model of a compressed-bitmap library

This project models the parts of a roaring-bitmap library, and of the benchmark programs shipped with
it, where a fast form of an operation has to agree with a simple one, and proves that it does.

A bitmap splits a key into a chunk number and a low part. The low parts of one chunk are held in a
container: a block of 64-bit words (one bit a value), a sorted array, or a sorted list of disjoint
closed runs. The modules follow the code in that order.

- **Word kernels.** `Word64` gives a machine word (`bv64`) its set of bit positions and proves what
  the shifts, masks and bit tricks of the kernels do to that set. `WordSets`, `Runs` and `Listing`
  lift this to blocks, run lists and ascending lists. `BitsetContainer` is the in-place container with
  its header; `HarleySeal` the carry-save combine and count; `ResultKernels` the kernels that fill a
  new block; `Decoders` and `ByteTable` the kernels that turn words into ascending values.
  `LazyCount` is the header as a state machine: the stored count is exact, or stale and never above
  the true count. `Agreement` sets the kernels against each other.
- **The reference count.** `CowProtocol` is copy-on-write as interleaved atomic steps of any number of
  handles, each driven by its own thread, with a map of deep copies as the specification. `CowProgress`
  proves that releases and barriers complete and that nothing need be leaked. `CountWord` is the count
  word itself under the atomic and the plain policy.
- **Sorted batches on a two-level table.** `ChunkContainers`, `ChunkTable` and `SortedBatch` are the
  reference bitmap's sorted append, removal and addition, and its count of values; `IndexUpdate` is a
  batch that moves rows between the bitmaps of a per-value index; `KeyLayout` is the key split for every
  key width, and `TableWalk` walks a table through it.
- **The benchmark scheduler.** `BenchmarkPlan` groups entries into bands and lays out the units;
  `Scheduler` gives rounds, slices, orders and unbiased draws.
- **Rank tables.** `RankTables` has the two compressed rank indexes and the sorted array.

A reference is only ever taken from an owner that stays (include/frsr/roaring/cow_policy.hpp:73-77), so an
owner being copied cannot leave first; `CowProgress.CanBeRunDown` gives the exact condition under which all
handles can still be let go of within an owner bound.

Members named `...Keeps` and `...Refines` in `CowProtocol` are one protocol step each; the rows below name
the theorems about whole runs that they build up to. Dafny's bit-vector reasoning is confined to
`Word64` and `ByteTable`: the other modules hide the bodies of `Bits` and its companions and work with
sets.

Where the code and its remarks differ, the code is followed:

- Interleaved rounds are documented as the requested rounds rounded up to a multiple of the unit's
  width (bench/bitmap_bench.cpp:8202-8205). In 32-bit arithmetic this holds exactly when the sum does
  not pass 32 bits (`InterleavedRounds`); the command line keeps rounds at or below one million
  (bench/bitmap_bench.cpp:10547-10551).
- A 32-bit count reading 1 is taken for sole ownership (include/frsr/roaring/cow_policy.hpp:63-67).
  Copy-on-write reads as deep copying over all runs exactly as long as no payload may get more than 2^32
  owners (`RefinesUpToTheCount`); past that there is a run in which a store is seen through another handle.
- A new array takes its group as given, while a merge into an array that exists drops repeated values
  (bench/bitmap_bench.cpp:7665-7668 and 7692-7706). The sorted addition always leaves the union, and leaves
  a well-formed table exactly when no value repeats in a group of at most 4096 values whose chunk is absent
  (`Table.AddSorted`, `StoresWell`); `RepeatedValueInNewChunk` shows both sides on the list [5, 5].
- The flat rank tables promise the ordinal or "absent" (bench/rank_bench.cpp:1), and answer an absent key
  with a value (bench/rank_bench.cpp:48, 105, 132) that is also the rank of the greatest key of a table
  that holds all 2^32 ids (`AbsentIsTold`).

## Model

| member | source | states |
|---|---|---|
| Word64.BitsDetermineWord | include/frsr/roaring/bitset_ops.hpp:972-998 | two words with the same set of bit positions are the same word, so equal sets mean equal blocks |
| Word64.LowerMaskWraps | include/frsr/roaring/bitset_ops.hpp:1294 | the mask of a run that ends at bit 63 is all ones although 2 << 63 wraps to 0 |
| Word64.FirstMask | include/frsr/roaring/bitset_ops.hpp:1293 | 0 - (1 << b) has exactly the bits b..63 |
| Word64.FirstMaskByShift | include/frsr/roaring/bitset_ops.hpp:653 | the shifted all-ones form is the same mask as the subtraction |
| Word64.LastMask | include/frsr/roaring/bitset_ops.hpp:1294 | (2 << b) - 1 has exactly the bits 0..b, bit 63 included |
| Word64.LastMaskByBranch | include/frsr/roaring/bitset_ops.hpp:654-656 | the form with a branch for bit 63 is the same mask as the branch-free one |
| Word64.TrailingZeros | include/frsr/roaring/bitset_ops.hpp:377-380 | the trailing-zero count of a nonzero word is its least set position |
| Word64.ClearLowest | include/frsr/roaring/bitset_ops.hpp:377-380 | w & (w - 1) removes exactly the least set position, and keeps zero although zero minus one wraps |
| WordSets.CountIsCardinality | include/frsr/roaring/bitset_ops.hpp:98-107 | the sum of the words' population counts is the number of values the block holds |
| WordSets.MembersOfCombined | include/frsr/roaring/bitset_ops.hpp:973-998 | combining two blocks word by word gives the union, intersection, difference or symmetric difference of their sets |
| WordSets.MembersDetermineWords | include/frsr/roaring/bitset_ops.hpp:497-566 | blocks of one length that hold the same values are equal word for word |
| Runs.RunMasks | include/frsr/roaring/bitset_ops.hpp:1290-1304 | the masks of a run's first and last word, and of a run inside one word, have exactly the run's bits of that word |
| Runs.FullWordMask | include/frsr/roaring/bitset_ops.hpp:1300-1302 | a word between a run's first and last lies wholly inside the run |
| Runs.CoveredStep | include/frsr/roaring/bitset_ops.hpp:1290-1304 | consecutive parts of a run are disjoint and together extend what is covered without a gap |
| Runs.MembersOfMasking | include/frsr/roaring/bitset_ops.hpp:1336-1345 | setting, clearing or flipping one masked word changes the set by exactly the run's part of that word |
| Listing.ListingIsUnique | include/frsr/roaring/bitset_ops.hpp:350-384 | a set has only one strictly ascending list, so all decoders that list it agree |
| Listing.ListingLength | include/frsr/roaring/bitset_ops.hpp:350-384 | a strictly ascending list of a set has as many entries as the set |
| LazyCount.StoredFullMeansFull | include/frsr/roaring/container_handle.hpp:241-245 | a stored count equal to the domain, exact or stale, is only ever stored by a bitset that holds every value |
| LazyCount.CombineIsSound | include/frsr/roaring/bitset_ops.hpp:928-999 | taking the saturation shortcut or recounting gives the same members; the shortcut changes nothing, and otherwise the count ends exact |
| LazyCount.ExactStep | include/frsr/roaring/bitset_ops.hpp:109-119 | settling before adjusting, or recounting, makes every counting operation leave the plain set result with its exact cardinality, whatever state the count was in |
| LazyCount.ExactStaysExact | include/frsr/roaring/container_handle.hpp:236-240 | an exact header stays exact under every eager operation, the shortcut and a value that changes nothing included |
| LazyCount.EagerRunIsExact | include/frsr/roaring/container_handle.hpp:236-240 | so over any sequence without a lazy operation the count needs no repair |
| LazyCount.StaleStep | include/frsr/roaring/container_handle.hpp:241-245 | a lazy union keeps a stored count that is a lower bound; a lazy flip drops it to zero |
| LazyCount.RunIsSound | include/frsr/roaring/container_handle.hpp:236-245 | over every sequence of eager and lazy operations, exact means equal to the cardinality, stale means not above it, and the members are those of plain set algebra |
| LazyCount.RepairedRunIsExact | include/frsr/roaring/bitmap_definitions.hpp:753-770 | a repair after any such sequence leaves the exact count |
| LazyCount.FlipTwiceIsNothing | include/frsr/roaring/bitset_ops.hpp:1263-1322 | flipping the same values twice, from an array, from runs or from a block, restores the members and an exact count, and makes a stale one exact |
| BitsetContainer.CombineAndCount | include/frsr/roaring/bitset_ops.hpp:972-998 | the plain fused loop leaves the combined block and returns its count, also when the operand is the very block combined into |
| BitsetContainer.PopCountWords | include/frsr/roaring/bitset_ops.hpp:98-107 | the word loop returns the number of values held |
| BitsetContainer.PopCountsOfMasking | include/frsr/roaring/bitset_ops.hpp:1336-1345 | setting a mask gains the mask's clear bits, clearing it loses the mask's set bits |
| BitsetContainer.PopCountsOfOneBit | include/frsr/roaring/bitset_ops.hpp:1273-1278 | setting, clearing or flipping one bit moves the count by the bit's former state |
| BitsetContainer.Bitset.SettleStale | include/frsr/roaring/bitset_ops.hpp:113-119 | the count becomes exact and the members stay |
| BitsetContainer.Bitset.Combine | include/frsr/roaring/bitset_ops.hpp:922-1001 | the in-place combine takes the header's combine step: a full left side of an or is left alone, and every other combine ends with its exact count |
| BitsetContainer.Bitset.CombineOrLazily | include/frsr/roaring/bitset_ops.hpp:1079-1108 | tiles and tail together give the union, for any tile width and word count, with the count left stale |
| BitsetContainer.Bitset.CombineXorLazily | include/frsr/roaring/bitset_ops.hpp:1356-1366 | the symmetric difference with the count dropped |
| BitsetContainer.Bitset.AddArrayValues | include/frsr/roaring/bitset_ops.hpp:1178-1258 | the union with a sorted array, with the exact count or, lazily, the old one as a lower bound |
| BitsetContainer.Bitset.ScatterValues | include/frsr/roaring/bitset_ops.hpp:1205-1257 | the span decides the arm, and neither arm's choice shows in the block or in the number of bits gained |
| BitsetContainer.Bitset.AddGrouped | include/frsr/roaring/bitset_ops.hpp:1206-1230 | one mask a word gives the union, and gained is exactly what the count rose by |
| BitsetContainer.Bitset.AddUnrolled | include/frsr/roaring/bitset_ops.hpp:1238-1257 | four bits a turn and the rest one by one give the union and the exact gain |
| BitsetContainer.Bitset.RemoveArrayValues | include/frsr/roaring/bitset_ops.hpp:886-902 | the difference with its exact count, repeated values counted once |
| BitsetContainer.Bitset.FlipArrayValues | include/frsr/roaring/bitset_ops.hpp:1263-1285 | the symmetric difference; the signed sum of the flips keeps the count exact and so inside the domain |
| BitsetContainer.Bitset.ApplyRunValues | include/frsr/roaring/bitset_ops.hpp:1328-1352 | union with or difference by the values of the runs, with the exact count |
| BitsetContainer.Bitset.FlipRunValues | include/frsr/roaring/bitset_ops.hpp:1309-1322 | symmetric difference with the values of the runs, recounted or dropped |
| BitsetContainer.Bitset.WalkRuns | include/frsr/roaring/bitset_ops.hpp:1288-1305 | walking every mask of every run applies the operation to exactly the covered values, runs sharing a boundary word included |
| BitsetContainer.Bitset.Add | include/frsr/roaring/container_handle.hpp:2002-2017 | one value joins, the answer says whether it was new, a stale count stays a lower bound |
| BitsetContainer.Bitset.Remove | include/frsr/roaring/container_handle.hpp:2072-2085 | one value leaves, the answer says whether it was there, and the count is exact after a removal |
| HarleySeal.FullAdder | include/frsr/roaring/hw_info.hpp:102-107 | per word, twice the weight-two bits plus the weight-one bits is the number of bits of the three inputs |
| HarleySeal.CarrySaveAdd | include/frsr/roaring/hw_info.hpp:102-107 | the same over a register of any width |
| HarleySeal.Block | include/frsr/roaring/bitset_ops.hpp:1034-1049 | sixteen registers are combined in place, and 16, 8, 4, 2 and 1 times the counters keep the number of bits stored so far |
| HarleySeal.AddLanes | include/frsr/roaring/bitset_ops.hpp:1050-1058 | adding a register's weighted counts adds exactly its weighted bits, and every lane stays within the limit the sum stays within |
| HarleySeal.Rounds | include/frsr/roaring/bitset_ops.hpp:1031-1051 | after the rounds the weighted counters hold exactly the bits of the combined prefix, and no lane total is above 4 times the word count |
| HarleySeal.Drain | include/frsr/roaring/bitset_ops.hpp:1052-1056 | shifting the total and adding the counters with their weights loses nothing, and no lane passes a limit that the bits counted are within |
| HarleySeal.LeftoverRegisters | include/frsr/roaring/bitset_ops.hpp:1057-1060 | the registers past the last round of sixteen are combined and counted one by one, every lane staying within 64 times the word count |
| HarleySeal.FusedCombineAndCount | include/frsr/roaring/bitset_ops.hpp:1011-1068 | for all four operations, any word count and any register width the block holds the combination and the result is its exact count |
| HarleySeal.CombineFused | include/frsr/roaring/bitset_ops.hpp:937-956 | the fused arm of the in-place combine takes the header step the plain arm takes, the exact count included |
| ResultKernels.CombineInto | include/frsr/roaring/bitset_ops.hpp:496-563 | a new block holds the combination; the empty handle comes back exactly when it is empty |
| ResultKernels.FillStep | include/frsr/roaring/bitset_ops.hpp:571-593 | merging a run's masked part of a word moves the frontier past it, adds exactly the masked count, and equals an outright store when the run starts the word |
| ResultKernels.FillManyRuns | include/frsr/roaring/bitset_ops.hpp:568-595 | the many-short-runs fill leaves runs ∩ bitset and its count |
| ResultKernels.FillLongRun | include/frsr/roaring/bitset_ops.hpp:645-685 | one run of the gap-zeroing fill: gap words zeroed, a boundary word shared with the previous run merged, the count exact |
| ResultKernels.FillGapByGap | include/frsr/roaring/bitset_ops.hpp:643-688 | the gap-zeroing fill overwrites every word of an uninitialized block and leaves runs ∩ bitset |
| ResultKernels.IntersectRunBitset | include/frsr/roaring/bitset_ops.hpp:613-694 | whichever fill the run count picks, the block is runs ∩ bitset and the handle is empty exactly when that is |
| ResultKernels.ClearBits | include/frsr/roaring/bitset_ops.hpp:778-800 | clears exactly a closed range and returns how many bits were set in it |
| ResultKernels.CloneAndClear | include/frsr/roaring/bitset_ops.hpp:776-811 | clearing the gaps between, before and after the runs leaves runs ∩ bitset and counts the bits lost |
| ResultKernels.IntersectByCloneAndRecount | include/frsr/roaring/bitset_ops.hpp:705-751 | runs ∩ bitset with its recounted cardinality |
| ResultKernels.IntersectByCloneAndSubtract | include/frsr/roaring/bitset_ops.hpp:763-818 | runs ∩ bitset, the known cardinality less the bits lost being exact |
| Decoders.ArrayFromBitset | include/frsr/roaring/bitset_ops.hpp:350-384 | the array lists exactly the block's values in ascending order and fills its promised slots |
| Decoders.StoreOne | include/frsr/roaring/bitset_ops.hpp:409-413 | an unconditional store keeps the listing so far; only a real bit advances the output |
| Decoders.StoreWord | include/frsr/roaring/bitset_ops.hpp:406-417 | K stores and the loop after them list the word's values without passing the 64 slots it may use |
| Decoders.ExtractBranchless | include/frsr/roaring/bitset_ops.hpp:394-423 | the output so far lists the common values below the frontier, no store leaves the buffer, and it stops only for want of words or of 256 slots |
| Decoders.ExtractPortable | include/frsr/roaring/bitset_ops.hpp:430-453 | for every density the exactly sized buffer ends up listing the intersection |
| Decoders.IntersectSparse | include/frsr/roaring/bitset_ops.hpp:833-878 | reading only the covered words lists runs ∩ bitset in order, inside the promised slots |
| Decoders.MaskedWordHolds | include/frsr/roaring/bitset_ops.hpp:862-870 | a masked word holds exactly the run's share of the intersection in that word |
| ByteTable.RowIsListing | include/frsr/roaring/bitset_ops.hpp:285-294 | each row of the decode table lists the byte's set positions in order |
| ByteTable.StoreByte | include/frsr/roaring/bitset_ops.hpp:329-335 | an eight-lane store of which only the byte's population count is kept extends the listing by that byte |
| ByteTable.DecodeByTable | include/frsr/roaring/bitset_ops.hpp:323-336 | the table loop lists everything below its word, stays 64 slots inside the buffer and stops only for want of them |
| ByteTable.ExtractSetBits | include/frsr/roaring/bitset_ops.hpp:310-347 | table part and scalar tail together write the first values of the block plus the base, in order, up to the end of the buffer; all of them when there is room |
| ByteTable.ListingPrefix | include/frsr/roaring/bitset_ops.hpp:337-346 | what is listed below a frontier is the start of the full listing, so the join of the two parts loses and repeats nothing |
| Agreement.RunIntersectionsAgree | include/frsr/roaring/bitset_ops.hpp:568-878 | the masked fills, the two clones and the sparse extraction give the same words, the same handle and the same values |
| Agreement.CombinesAgree | include/frsr/roaring/bitset_ops.hpp:937-998 | the fused and the plain in-place combine give the same words and count |
| Agreement.ScatterThenDecode | include/frsr/roaring/bitset_ops.hpp:1178-1258 | scattering a strictly ascending array into an empty bitset and decoding it gives the array back |
| Agreement.ScattersAgree | include/frsr/roaring/bitset_ops.hpp:1205-1257 | both scatter arms leave the same words and report the same gain |
| Agreement.FlipTwiceRestores | include/frsr/roaring/bitset_ops.hpp:1263-1285 | two flips by the same array restore every word and the count |
| Agreement.FlipRunsTwiceRestores | include/frsr/roaring/bitset_ops.hpp:1309-1322 | two flips by the same runs do |
| Agreement.XorTwiceRestores | include/frsr/roaring/bitset_ops.hpp:922-1001 | two exclusive ors with the same other block do |
| CowProtocol.StepKeepsInv | include/frsr/roaring/cow_policy.hpp:53-97 | every atomic step of copy, release, barrier and clone keeps: counts exact, nothing in use freed, writers and freers alone, and a handle for every payload not freed |
| CowProtocol.StepRefines | include/frsr/roaring/container_handle.hpp:783-815 | one step of the protocol is one step of deep copying, or changes nothing that can be read |
| CowProtocol.CountTellsSoleOwner | include/frsr/roaring/cow_policy.hpp:63-84 | for a handle that holds a payload, the word reads 1 exactly when it is the only owner |
| CowProtocol.SoleOwnerIsAlone | include/frsr/roaring/cow_policy.hpp:73-79 | a sole owner that nobody is copying from is the only handle that can touch the payload, so no step can make it shared before the write |
| CowProtocol.RunRefinesDeepCopies | include/frsr/roaring/cow_policy.hpp:11-14 | over every run of any number of handles, with at most 2^32 owners of a payload, each handle reads what a deep copy would hold |
| CowProtocol.RunFreesEachPayloadOnce | include/frsr/roaring/cow_policy.hpp:82-96 | in every reachable state no payload is freed twice or while a handle may touch it, every payload not freed still has a handle that refers to it, the count is the number of handles that have not released it, and once all handles are gone each payload has been freed exactly once |
| CowProtocol.WriterIsAlone | include/frsr/roaring/container_handle.hpp:788-796 | in every reachable state a handle past the write barrier shares its payload with nobody |
| CowProtocol.CrowdIsReached | include/frsr/roaring/container_handle.hpp:882-887 | a payload with any number of owners is reached from nothing by copies, never with more owners on the way |
| CowProtocol.SharedWrite | include/frsr/roaring/container_handle.hpp:792-794 | with n > 1 owners and a word that reads 1 by wrapping there is a run whose handles do not read what deep copies would |
| CowProtocol.RefinesUpToTheCount | include/frsr/roaring/cow_policy.hpp:50-71 | every run within an owner bound reads as deep copying exactly when the bound is at most 2^32 |
| CowProgress.OwnStepIsForced | include/frsr/roaring/cow_policy.hpp:82-96 | a handle that is letting go can always take its next step, and has no other |
| CowProgress.OwnStepAdvances | include/frsr/roaring/cow_policy.hpp:82-96 | each such step completes the release or leaves fewer, and the verdict of the load and of the subtraction is being the only owner |
| CowProgress.ReleaseCompletes | include/frsr/roaring/cow_policy.hpp:82-96 | in any interleaving a handle that is letting go is gone, or writes its clone, by its third own step |
| CowProgress.ReleaseAlone | include/frsr/roaring/container_handle.hpp:754-763 | a release left to itself touches one payload, and frees it exactly when the handle was its only owner or already found to be the last |
| CowProgress.BarrierIsPassed | include/frsr/roaring/container_handle.hpp:783-815 | a handle at the write barrier gets to write within five steps of its own: in place exactly when it is the only owner, else in a clone with the same contents |
| CowProgress.CanBeRunDown | include/frsr/roaring/cow_policy.hpp:73-96 | a state can be continued, within an owner bound of at most 2^32, to no handles and every payload freed once exactly when every payload being copied has room for one owner more than those pinned by copies |
| CowProgress.ReachedCanBeRunDown | include/frsr/roaring/cow_policy.hpp:53-97 | every state reached with fewer than 2^32 owners of a payload has such a continuation with at most one owner more, so nothing is ever leaked for good |
| CowProgress.OneOwnerCannotBeCopied | include/frsr/roaring/container_handle.hpp:872-887 | with one owner allowed, a copy whose count is not raised yet leaves a state that cannot be run down |
| CountWord.Count.constructor | include/frsr/roaring/cow_policy.hpp:61 | the word is born with one owner |
| CountWord.Count.Load | include/frsr/roaring/cow_policy.hpp:65-67 | up to 2^32 owners, 1 is read exactly by a sole owner |
| CountWord.Count.Increment | include/frsr/roaring/cow_policy.hpp:69-71 | the word follows one more owner |
| CountWord.Count.DecrementIsLast | include/frsr/roaring/cow_policy.hpp:82-96 | last exactly for a sole owner, whose word is left alone; any other owner is taken off it |
| CountWord.Count.PlainDecrementIsLast | include/frsr/roaring/cow_policy.hpp:117-119 | the plain policy gives the same verdict |
| KeyLayout.ComposeOfParts | include/frsr/roaring/container_layout.hpp:35-53 | composing the chunk and low part of a key gives the key back, for every key width |
| KeyLayout.PartsOfCompose | include/frsr/roaring/container_layout.hpp:35-53 | the parts of a composed key are the parts it was composed of |
| KeyLayout.SplitAtSixteenBits | include/frsr/roaring/container_layout.hpp:15-45 | for every key width the low part is the last sixteen bits of the key and the chunk is the rest; up to sixteen bits the whole key is low |
| KeyLayout.OrderIsLexicographic | include/frsr/roaring/container_layout.hpp:35-53 | key order is lexicographic order on (chunk, low) |
| KeyLayout.WalkIsInOrder | include/frsr/roaring/container_layout.hpp:47-53 | walking ascending chunks with ascending lows visits exactly the composed keys in strictly ascending order |
| KeyLayout.WordsCoverLowDomain | include/frsr/roaring/container_layout.hpp:16-18 | from 8-bit keys on the words of a chunk have one bit for each low part |
| ChunkContainers.RemoveFromArray | bench/bitmap_bench.cpp:7591-7605 | the two-cursor compaction and the tail move keep exactly the survivors, in order, in place; the removed list may repeat values |
| ChunkContainers.MergeIntoBuffer | bench/bitmap_bench.cpp:7688-7706 | the merge is strictly ascending, holds the union, and never passes the 4096 slots |
| ChunkContainers.ClearGroup | bench/bitmap_bench.cpp:7607-7612 | the group's bits are cleared and the count stays exact, repeated values included |
| ChunkContainers.SetGroup | bench/bitmap_bench.cpp:7647-7655 | the group's bits are set and the count stays exact |
| ChunkContainers.RemoveRunValue | include/frsr/roaring/run_container.hpp:125-144 | taking one value out of a run list takes exactly that value out and keeps the runs sorted |
| ChunkContainers.AddRunValue | include/frsr/roaring/run_container.hpp:82-123 | putting one value in merges the runs it touches, adds exactly that value and keeps the runs sorted |
| ChunkContainers.RemoveGroup | bench/bitmap_bench.cpp:7589-7633 | the container loses exactly the group's values, and a bitset becomes an array exactly at or below the array limit |
| ChunkContainers.AddGroup | bench/bitmap_bench.cpp:7677-7725 | the container gains exactly the group's values, and an array becomes a bitset exactly when the sum passes the array limit |
| ChunkContainers.NewContainer | bench/bitmap_bench.cpp:7664-7673 | a new chunk holds the group as an array up to the limit and as a bitset past it, and is sound exactly when it is a bitset, or a strictly ascending group within the array limit |
| SortedBatch.Table.constructor | bench/bitmap_bench.cpp:7460-7461 | a new table holds nothing |
| SortedBatch.Table.RemoveFromChunk | bench/bitmap_bench.cpp:7586-7637 | only the one chunk changes, by exactly the group, a bitset becoming an array exactly at or below the array limit; left empty it is dropped, and the keys stay strictly ascending |
| SortedBatch.Table.RemoveSorted | bench/bitmap_bench.cpp:7578-7639 | the table ends as S \ values, well formed, for every ascending list |
| SortedBatch.Table.AddToChunk | bench/bitmap_bench.cpp:7663-7726 | only the one chunk changes, or a new one lands at its sorted place, for every ascending group; that chunk ends well formed exactly when it was there, or is a bitset, or no value repeats, and in the form its counts call for |
| SortedBatch.Table.InsertNewChunk | bench/bitmap_bench.cpp:7664-7674 | a new chunk at its sorted place, an array up to the limit and a bitset past it, leaves every other chunk as it was |
| SortedBatch.Table.AddSorted | bench/bitmap_bench.cpp:7644-7727 | for every ascending list, repeated values included, the table ends as S ∪ values; it ends well formed exactly when no value repeats in a group of at most 4096 values whose chunk was absent |
| SortedBatch.GroupStores | bench/bitmap_bench.cpp:7659-7673 | a group can be stored as one exactly when each of its values can, so the condition can be read off neighbours in the list |
| SortedBatch.RepeatedValueInNewChunk | bench/bitmap_bench.cpp:7665-7668 | the list [5, 5] breaks a table without its chunk, and is merged in once by a table that has it |
| SortedBatch.Table.AppendChunk | bench/bitmap_bench.cpp:7429-7438 | a chunk past the last one joins the table with exactly its group; it is well formed exactly when it is a bitset, or a short enough array without repetition |
| SortedBatch.Table.AppendSorted | bench/bitmap_bench.cpp:7421-7441 | for every ascending list that starts past the last chunk, and any threshold, the table ends as S ∪ values; it ends well formed exactly when no group at or below the threshold repeats a value or is longer than an array may be |
| SortedBatch.Size | bench/bitmap_bench.cpp:7469 | the array's length, the stored count and the summed run lengths are each the number of values of the container |
| SortedBatch.Table.Cardinality | bench/bitmap_bench.cpp:7467-7471 | the counts of the containers add up to the number of values the table holds |
| ChunkTable.RemoveChunk | bench/bitmap_bench.cpp:7634-7637 | taking an entry out of the table takes out that key's values only |
| ChunkTable.InsertChunk | bench/bitmap_bench.cpp:7668-7672 | putting an entry in at its place adds that key's values only, and touches no other chunk's form |
| ChunkTable.HeldOfNext | bench/bitmap_bench.cpp:7469 | chunks hold disjoint values, so the next one adds exactly as many values as its container has |
| TableWalk.SplitIsLayout | bench/bitmap_bench.cpp:7426-7432 | the table's key and low part of a value are the 32-bit layout's, and composing them gives the value |
| TableWalk.WalkListsTheTable | include/frsr/roaring/container_layout.hpp:35-53 | walking a valid table chunk by chunk and low by low lists exactly the values it holds, in strictly ascending order |
| TableWalk.LowsCanBeListed | include/frsr/roaring/container_layout.hpp:35-53 | every valid table has such a walk |
| IndexUpdate.TargetOf | bench/bitmap_bench.cpp:7531 | a moved row never goes back to the value it leaves |
| IndexUpdate.TargetIsModular | bench/bitmap_bench.cpp:7531 | the target is the modular expression of the code |
| IndexUpdate.BuildUpdate | bench/bitmap_bench.cpp:7509-7536 | the base, removed and added lists of every value hold exactly its rows, in ascending order, and the row moved i-th is listed to go to (from + 1 + draw % (values - 1)) % values |
| IndexUpdate.BatchMovesRows | bench/bitmap_bench.cpp:7556-7565 | after its removals and additions a value holds exactly the rows whose new value it is |
| IndexUpdate.UpdatedTable | bench/bitmap_bench.cpp:7552-7564 | one value's table holds its rows less those that leave and with those that come, and its counts before and after are the sizes of those sets |
| IndexUpdate.UpdatedIndex | bench/bitmap_bench.cpp:7509-7727 | building, removing and adding on real tables leaves every row in exactly one value's table: a moved row at the value its draw names, any other where it was; the tables' own counts add up to the row count before the batch and after it |
| RankTables.CountBelow | bench/rank_bench.cpp:104 | the counts of the words before plus the masked word count exactly the ids below a key |
| RankTables.RankIsPosition | bench/rank_bench.cpp:102-106 | that number is the key's position among the ids, and fits 32 bits, when the key is an id |
| RankTables.FlatTable.constructor | bench/rank_bench.cpp:87-98 | every prefix is the number of ids in the words before it, without a 32-bit wrap |
| RankTables.FlatTable.Test | bench/rank_bench.cpp:99-101 | true exactly for the ids, whatever key is asked for |
| RankTables.FlatTable.IndexOf | bench/rank_bench.cpp:102-106 | the position of the key among the ids, or absent |
| RankTables.FlatNarrowTable.constructor | bench/rank_bench.cpp:116-128 | base plus 16-bit count is the flat table's prefix at every word, so no count is truncated |
| RankTables.FlatNarrowTable.IndexOf | bench/rank_bench.cpp:129-133 | the position of the key among the ids, or absent |
| RankTables.SortedIndexOf | bench/rank_bench.cpp:237-240 | lower bound and an equality test give the position or absent |
| RankTables.IndexIsUnique | bench/rank_bench.cpp:237-240 | a key has one answer, so arms that each give a right one agree |
| RankTables.ThreeArmsAgree | bench/rank_bench.cpp:235-240 | the three arms give one answer for every key inside the table |
| RankTables.AbsentIsTold | bench/rank_bench.cpp:102-106 | the absent value tells absent keys from present ones exactly unless the table holds all 2^32 ids and the key is the greatest |
| Scheduler.InterleavedRounds | bench/bitmap_bench.cpp:8206-8211 | rounds are the requested ones rounded up to a multiple of the width, exactly when the sum fits 32 bits |
| Scheduler.SlicesAddUp | bench/bitmap_bench.cpp:8215-8240 | a member's slices over its rounds add up to the reps configured, or to the rounds when those are more; none is empty, and they differ by at most one, the larger ones first |
| Scheduler.PositionsAreBalanced | bench/bitmap_bench.cpp:8225-8229 | over any whole number of turns the rotation puts each member in each position once a turn |
| Scheduler.UnitOrders | bench/bitmap_bench.cpp:8459-8460 | a unit's orders: one round in registration and reversed order and for a history entry, the rounds asked for when shuffled, the next multiple of the width when interleaved, where each member takes each position in exactly one n-th of them; every round is a permutation |
| Scheduler.DrawBelow | bench/bitmap_bench.cpp:8194-8200 | the first output at or above the threshold is taken and reduced; everything before it was below |
| Scheduler.DrawsAreUnbiased | bench/bitmap_bench.cpp:8192-8200 | the accepted outputs are a multiple of the bound and every residue has equally many of them |
| Scheduler.Shuffle | bench/bitmap_bench.cpp:8230-8234 | the row ends as the shuffle by the draws, which are the accepted outputs in turn, each reduced to its own bound |
| Scheduler.EveryOrderComesFromOneListOfDraws | bench/bitmap_bench.cpp:8230-8234 | every order of the members is reached by exactly one list of draws, so unbiased draws make every order equally likely |
| Scheduler.SettledPosition | bench/bitmap_bench.cpp:8231-8233 | once swapped a position keeps the member its draw picked |
| Scheduler.ShuffledIsPermutation | bench/bitmap_bench.cpp:8231-8233 | any shuffle of an order is an order of the same members |
| Scheduler.MakeRow | bench/bitmap_bench.cpp:8225-8234 | round r's row starts with member r and goes round from each member to its successor when interleaved, is the members in order when not, and a shuffle starts from the members in order |
| Scheduler.OrderedMeans | bench/bitmap_bench.cpp:8219-8236 | every such row is a permutation, and without a shuffle nothing is drawn |
| Scheduler.EveryMemberRuns | bench/bitmap_bench.cpp:8219-8236 | a permutation leaves no member out |
| Scheduler.MakeOrders | bench/bitmap_bench.cpp:8222-8236 | one permutation a round, each drawing where the round before stopped; interleaved rounds are rotations |
| BenchmarkPlan.StableSortByHash | bench/bitmap_bench.cpp:8106-8110 | the positions in hash order, equal hashes in registration order |
| BenchmarkPlan.FirstOfBand | bench/bitmap_bench.cpp:8111-8129 | every position gets the least position of its band, even when different keys share a hash |
| BenchmarkPlan.FindLeader | bench/bitmap_bench.cpp:8115-8126 | the search inside one hash finds the least earlier position that is no history entry and has an equal key, or none |
| BenchmarkPlan.GroupNumbers | bench/bitmap_bench.cpp:8130-8134 | a band's number is the number of bands whose leader comes before its own |
| BenchmarkPlan.NumbersAppearInOrder | bench/bitmap_bench.cpp:8130-8134 | group numbers follow first appearance |
| BenchmarkPlan.GroupsAreBands | bench/bitmap_bench.cpp:8130-8134 | two positions get one number exactly when they have one leader |
| BenchmarkPlan.GroupingIsByKey | bench/bitmap_bench.cpp:8104-8134 | grouping through the hash equals grouping by key, history entries alone |
| BenchmarkPlan.PlanEntries | bench/bitmap_bench.cpp:8136-8151 | originals in registration order, then one duplicate of each that is no history entry, in the same order |
| BenchmarkPlan.BandUnits | bench/bitmap_bench.cpp:8153-8158 | one unit a band, every planned entry in its band's unit and exactly once, in plan order |
| BenchmarkPlan.SequenceUnits | bench/bitmap_bench.cpp:8160-8177 | single-entry units, every planned entry exactly once, originals in sequence and a band's duplicates right after its last original |
| BenchmarkPlan.MembersInTurn | bench/bitmap_bench.cpp:8165-8166 | the members of a band keep the order of the sequence |
| BenchmarkPlan.MakePlan | bench/bitmap_bench.cpp:8112-8190 | for every hash function, order and duplicate setting: bands are the keys, numbered by first appearance, each planned entry is in exactly one unit exactly once; interleaved and shuffled plans have one unit a band and none empty, the others run in sequence |

## Left out

- The AVX-512 variants, alignment, prefetching, inline assembly and the tuning gates: they choose between kernels with equal results. `kFusedHarleySealPopcount` and the run-coverage gates are modelled only as both arms being right.
- HarleySeal.CarrySaveAdd: a register is a list of words of any width, and lane totals are numbers without a width; every lane total is proved to stay within 64 times the word count, so it fits the 64-bit lanes of the source for any block below 2^58 words.
- Word64.PopCount: the population count of a word is the size of its set of positions; the bit-trick fallback of `vector_popcount` is not modelled.
- Endpoint caches, payload reuse, capacities and allocation failure: they do not change the set a container denotes.
- BitsetContainer.Bitset.AddArrayValues: array payloads are sequences of values; an array handle's own header is not part of this model.
- CowProtocol.RunRefinesDeepCopies: atomic steps are sequentially consistent, so the memory orders and fences of the source are not modelled; payloads are heap payloads (inline and borrowed ones carry no count), moves of handles are not steps, and runs are those in which no payload gets more than 2^32 owners, a bound `CowProtocol.RefinesUpToTheCount` proves exact.
- CowProtocol.StepKeepsInv: a handle is used by one thread at a time, and a handle that another is being copied from is neither written nor released meanwhile, as for any C++ object.
- CountWord.Count.DecrementIsLast: the two atomic steps run back to back here; their interleaving is `CowProtocol`.
- SortedBatch.Table.RemoveSorted: containers are values of the table, so unsharing a container before a write is not modelled; CRoaring's lookup, insertion and removal at an index are a search and slices of two lists.
- ChunkContainers.AddRunValue: CRoaring's own calls on one value of a run container are taken to do what the library's run container does, and to keep the form.
- IndexUpdate.UpdatedIndex: the generator's draws and the choice of the moved rows are parameters; the copy of the index made before the batch is not modelled.
- RankTables.FlatTable.IndexOf: asked for keys inside the table's words only, as the source indexes the words unchecked.
- Scheduler.DrawBelow: the generator is a given finite list of outputs; drawing says so when they run out. `Scheduler.MakeOrders` keeps the rows of the flat orders array apart.
- BenchmarkPlan.MakePlan: keys are of any type with equality and the hash is any function of the key; parsing a name into its band key and the FNV-1a hash are left out, and rep counts are not carried.
- Bitmaps of many chunks, set operations between whole bitmaps, array and run kernels other than those above, serialization, frozen images, table sharing, views and interoperation: not modelled.
- Benchmark registration, timing, reporting and command-line parsing: input and output only.
