# Verified model of a low-level allocator, an address map and a leak detector

This project models, in Dafny, four parts of the repository and proves what they promise.

* **The arena allocator** (`base/low_level_alloc.cc`): `SkiplistLevels`, `Skiplist`, `Blocks`,
  `LowLevelAlloc`, `MachineWords`. A block is the address of its header. The header fields and
  the skiplist fields are one map per field. A ghost set of free blocks and one of allocated
  blocks say what the pointers mean. `Arena.Valid` is the invariant of every state between two
  calls: the free list is a skiplist, the blocks tile the mapped regions exactly, no two free
  blocks are adjacent, every header is right, and `allocation_count` is the number of allocated
  blocks. `Space` (free blocks and sizes) is the specification that the methods are proved
  against.
* **The compact address map** (`compact_address_map.cc`, `compact_address_map.h`):
  `AddressRadix`, `EntryLists`, `AddressLookup`, `AddressUpdates`, `AddressSnapshots`,
  `AddressRuns`, `CompactAddressMaps`. Memory is one map per field. `Consistent` says that the
  tables, chains and entries are in order and that looking up any address finds what a finite
  map says; each step of the code is a lemma about it.
* **The two-tier leak analysis** (`ranked_list.cc`, `leak_analyzer.cc`, `call_stack_table.cc`,
  `call_stack_manager.cc`, `leak_detector_impl.cc`): `RankedLists`, `LeakAnalyzers`,
  `LeakSuspects`, `CallStackTables`, `CallStackManagers`, `LeakCounts`, `LeakTraces`,
  `LeakHistories`, `LeakSamples`, `LeakReports`, `LeakDetectors`, `LeakRuns`. The analyzer's
  invariant ties its fields to the whole run of samples it has been given; the detector's
  invariant ties every counter to the allocations that are outstanding, and the samples of both
  tiers to what was outstanding at each check so far.
* **The staged hash** (`base/hash.cc`): `Hashing`, on 32-bit vectors, `HashExamples` with some
  hashes in numbers, `StagedHashing` for the exact condition under which hashing in stages is
  hashing, and `HashCycles` for the data on which it is not.

`mmap` is a method that returns any fresh page-aligned region, `Random` any number from 1 up,
and the custom allocator any address that is not in use (in the compact address map, objects are
numbered in the order they are made). `IntSets` holds facts about sets, and
`Options` an option type.

## Where the code falls short of a simple promise

The code is modelled as it is. These are the exact conditions:

* An address of 2^52 or more does not fit the 32-bit `Cluster::id`. It is never found again, and
  even looking it up hides every address in the cluster of its low 52 bits. The map is a plain
  finite map exactly on addresses below 2^52 (`AddressRuns.InsertIsPlain`, `FindIsPlain`,
  `FoundAgain`, `LookupLosesAnEntry`).
* `size()` of the compact address map counts an overwrite twice. It is exact if and only if no
  insert overwrote and nothing was hidden (`CompactAddressMap.SizeIsExact`,
  `OverwriteCountsTwice`).
* `RecordAlloc` at a live address keeps the old record but counts the new allocation. A slot's
  counters equal its live allocations if and only if nothing was lost this way, modulo 2^32
  (`LeakCounts.SlotCountsLive`, `LostRecordCounts`).
* `SizeToIndex` gives an index inside the table exactly for sizes whose quarter, cut off to an
  `int`, is not negative (`LeakCounts.IndexInRange`, `NegativeIndex`).
* A check for leaks skips a size whose call stack table is empty, and does not give its analyzer
  a sample. So a suspected call stack has risen over the last checks at which its table was not
  empty; from each check to the next it has risen if and only if none of the last checks was
  skipped (`LeakHistories.CheckToCheck`, `SkippedCheck`).
* Staged hashing equals one-shot hashing, for all data cut into chunks of given lengths, if and
  only if every chunk before the last non-empty one has a length divisible by 4
  (`StagedHashing.AgreesIffAligned`).
* The comment on `IntLog2` asks for `size >= base`, but the function is also right for smaller
  sizes, where it returns 0. The model has no such requirement.

## Model

| member | source | states |
|---|---|---|
| `SkiplistLevels.IntLog2` | base/low_level_alloc.cc:53-64 | the commented bound: size >> r <= base, and base < size >> (r - 1) when r > 0 |
| `SkiplistLevels.ShrIsQuotient` | base/low_level_alloc.cc:53-64 | size >> r is the quotient of size and 2^r, so the bound is one on size / base |
| `SkiplistLevels.Log2Monotone` | base/low_level_alloc.cc:60-63 | any two results that meet the bound grow with size, and the bound has one result per size |
| `SkiplistLevels.LLA_SkiplistLevels` | base/low_level_alloc.cc:76-94 | for the r that IntLog2 promises, the level is r + 1, or less because it is 29 or because the node has no room for one more pointer; with randomness it is at least that; it is at least 1, less than kMaxLevel, and the next array fits inside the node |
| `SkiplistLevels.LevelsHasLevels` | base/low_level_alloc.cc:76-94 | the levels that the search reckons with obey the same law |
| `SkiplistLevels.LayoutConstants` | base/low_level_alloc.cc:24-43 | the layout on a 64-bit target, in numbers |
| `SkiplistLevels.LevelsOrdered` | base/low_level_alloc.cc:83 | 0 < levels(x, false) <= levels(y, true) < kMaxLevel whenever x <= y |
| `SkiplistLevels.FewLevelsMeansSmall` | base/low_level_alloc.cc:402-404 | a block with fewer levels than a request must have is too small for it |
| `Skiplist.FreeList.Search` | base/low_level_alloc.cc:96-109 | prev[i] is the last smaller node at every level i, and the result is the first node not smaller |
| `Skiplist.FreeList.Insert` | base/low_level_alloc.cc:111-124 | the skiplist gains exactly this node at all its levels, prev is its predecessor at every level up to the new head level |
| `Skiplist.FreeList.Delete` | base/low_level_alloc.cc:126-139 | the skiplist loses exactly this node at every level, its found-check holds, and the head level shrinks to the maximum again |
| `Skiplist.FreeList.Shrink` | base/low_level_alloc.cc:136-138 | head->levels ends at 0 or at a level that has a node |
| `Skiplist.FreeList.Absorb` | base/low_level_alloc.cc:346-350 | deleting the successor and reinserting a node with new levels leaves a skiplist without the successor |
| `Skiplist.LinkStep` | base/low_level_alloc.cc:120-123 | linking at level i turns a list that has the node below i into one that has it below i + 1 |
| `Skiplist.UnlinkStep` | base/low_level_alloc.cc:133-135 | the same for unlinking, and prev[i]->next[i] is the node, so the loop does not stop early |
| `Skiplist.ChainIsSortedLevel` | base/low_level_alloc.cc:96-124 | following next[i] from any node visits, in strictly rising address order, exactly the later nodes with more than i levels |
| `Skiplist.HeadLevelIsMaximum` | base/low_level_alloc.cc:117-119 | head->levels is the maximum node level, and head->next is null exactly from there on |
| `Blocks.RoundUpIsLeastMultiple` | base/low_level_alloc.cc:309-313 | RoundUp is a multiple of the alignment, not below the argument and less than one alignment above it |
| `MachineWords.RoundUpMask32` | base/low_level_alloc.cc:311-313 | the mask expression is that rounding on 64-bit words, at the block alignment |
| `MachineWords.RoundUpMask64K` | base/low_level_alloc.cc:418 | the same at sixteen 4096-byte pages |
| `MachineWords.MagicKindsDiffer` | base/low_level_alloc.cc:169-218 | at aligned addresses the two kinds of magic number never coincide, with each other or with 0 |
| `MachineWords.MagicIsInjective` | base/low_level_alloc.cc:214-218 | magic numbers of one kind identify their header |
| `MachineWords.MagicInNumbers` | base/low_level_alloc.cc:170-171 | the two constants in numbers |
| `Blocks.CoalesceAtCovers` | base/low_level_alloc.cc:337-352 | merging a block with its adjacent successor keeps the blocks well-formed and covers the same bytes |
| `Blocks.SuccessorDecides` | base/low_level_alloc.cc:338-341 | the level-0 successor alone decides whether there is a block to merge with, and the list head has none |
| `Blocks.AddBlockReleases` | base/low_level_alloc.cc:354-369 | a fully coalesced list plus one block, coalesced at the block and then at its predecessor, is fully coalesced and covers exactly the union of bytes |
| `Blocks.CoalescedIsCanonical` | base/low_level_alloc.cc:337-369 | two fully coalesced lists that cover the same bytes have the same blocks, whatever the order of the frees |
| `Blocks.ReleaseKeepsTiles` | base/low_level_alloc.cc:354-369 | freeing a block keeps free and allocated blocks tiling the regions |
| `Blocks.SplitTiles` | base/low_level_alloc.cc:441-449 | splitting a block keeps the tiling |
| `Blocks.RegionBlockTiles` | base/low_level_alloc.cc:431-436 | adding a new region as a block keeps the tiling |
| `Blocks.BelowLevelIsSmall` | base/low_level_alloc.cc:402-404 | every block that is not on the searched level is too small |
| `Blocks.ScanFindsFirst` | base/low_level_alloc.cc:400-412 | a plain scan of the sorted list finds its first block that is big enough |
| `Blocks.FirstFitIsScan` | base/low_level_alloc.cc:400-412 | the first fit is the result of that scan over the whole level-0 list, and there is none exactly if the scan finds none |
| `Blocks.AllocationIs` | base/low_level_alloc.cc:400-449 | what an allocation does to the bytes: the lowest big enough free block is cut if there is one, and else one new region of the request rounded up to sixteen pages is mapped and cut with what is free; the cut off block has at least the request and less than 64 bytes more |
| `Blocks.EmptyArenaIsPages` | base/low_level_alloc.cc:288-291 | if coalesced free blocks alone tile page-aligned regions, each starts on a page boundary and has a page-multiple size |
| `Blocks.SlotsAreSeparate` | base/low_level_alloc.cc:40-43 | the next slots of free blocks lie inside their blocks, apart from each other and from every other block |
| `Blocks.UserAddressAligned` | base/low_level_alloc.cc:454 | the address given to the client is a multiple of roundup |
| `LowLevelAlloc.Arena.constructor` | base/low_level_alloc.cc:220-250 | a new arena is in a valid state, with no blocks and no regions; roundup is 32 and min_size 64 |
| `LowLevelAlloc.Arena.Coalesce` | base/low_level_alloc.cc:337-352 | exactly the merge of the specification at a, nothing on the list head, allocated headers untouched |
| `LowLevelAlloc.Arena.EnlistAndCoalesce` | base/low_level_alloc.cc:363-368 | after Coalesce(f) has deleted and reinserted f, prev[0] is still the level-0 predecessor, so both merges happen |
| `LowLevelAlloc.Arena.AddToFreelist` | base/low_level_alloc.cc:354-369 | the free bytes become exactly the old ones plus the block, coalesced; allocated blocks keep size and header |
| `LowLevelAlloc.Arena.FreeBlock` | base/low_level_alloc.cc:371-389 | keeps the invariant, takes exactly this block out of the allocated ones; null does nothing; no check fails |
| `LowLevelAlloc.Arena.Next` | base/low_level_alloc.cc:315-335 | the next node at level i; all its sanity checks hold |
| `LowLevelAlloc.Arena.FindFit` | base/low_level_alloc.cc:402-412 | the search on one high level finds the first fit of the whole free list, and null exactly if no free block is big enough |
| `LowLevelAlloc.Arena.MapPages` | base/low_level_alloc.cc:416-434 | one new page-aligned region, of exactly the request rounded up to sixteen pages, which can become a block |
| `LowLevelAlloc.Arena.FindRegion` | base/low_level_alloc.cc:401-437 | the loop ends after at most one mmap, which happens exactly if nothing fits, and then maps the request rounded up to sixteen pages |
| `LowLevelAlloc.Arena.Carve` | base/low_level_alloc.cc:438-450 | the found block leaves the free list, and what is at least min_size too much goes back, and no more |
| `LowLevelAlloc.Arena.DoAllocWithArena` | base/low_level_alloc.cc:391-458 | keeps the invariant, adds exactly one allocated block, aligned, with at least request usable bytes, taken from the first fit; a zero request returns null |
| `LowLevelAlloc.Arena.ClientWrites` | base/low_level_alloc.cc:40-44 | whatever the client writes where a free block would keep levels and next, the invariant holds |
| `LowLevelAlloc.Arena.UnmapAll` | base/low_level_alloc.cc:279-301 | the alignment checks hold, no two of the unmapped blocks overlap, and the bytes unmapped are exactly the bytes ever mapped |
| `LowLevelAlloc.DeleteArena` | base/low_level_alloc.cc:271-305 | returns whether nothing is allocated; if so unmaps exactly the mapped bytes, each once, and frees the arena's own block, and else neither arena's blocks nor regions change |
| `AddressRadix.AddressDigits` | compact_address_map.h:55-77 | cluster id, subcluster, page, block and offset are the mixed-radix digits of the address |
| `AddressRadix.SizesInNumbers` | compact_address_map.h:55-77 | blocks of 256 bytes, pages of 4 KB, subclusters of 64 KB, clusters of 1 MB; 2^32 clusters are 2^52 bytes |
| `AddressRadix.SamePage` | compact_address_map.cc:32-72 | two addresses find the same page only if they agree above the page offset, and only below 2^52 |
| `AddressRadix.WithClusterPages` | compact_address_map.cc:40-45 | a new cluster takes over exactly the addresses with its id |
| `AddressRadix.WithPagePages` | compact_address_map.cc:65-70 | a new page is found by exactly the addresses that lead to its slot |
| `EntryLists.StoredInfo` | compact_address_map.h:28-37 | Store keeps the size modulo 256 and the hash exactly if there is one |
| `EntryLists.TakeLinked` | compact_address_map.cc:107-112 | detaching a free entry and linking it into a block list leaves every list linked up |
| `EntryLists.RecycleLinked` | compact_address_map.cc:126-133 | unlinking through a pointer to the head or to a next field, and linking to the free list, does so too |
| `EntryLists.TakePartition` | compact_address_map.cc:107-112 | every entry stays on exactly one list |
| `EntryLists.RecyclePartition` | compact_address_map.cc:130-133 | the same when an entry goes back |
| `AddressLookup.PlacesDiffer` | compact_address_map.cc:80-83 | different addresses have different places, a list and an offset |
| `AddressUpdates.OneAddressChanged` | compact_address_map.cc:80-117 | a change at one list and one offset changes the map at one address |
| `AddressSnapshots.OnExactlyOneList` | compact_address_map.cc:96-115 | every entry ever made is at exactly one place of exactly one list |
| `AddressSnapshots.OffsetsAreUnique` | compact_address_map.cc:81-94 | no two entries of a block have the same offset |
| `AddressSnapshots.NewClusterConsistent` | compact_address_map.cc:32-46 | after adding a cluster all lookups agree with the map without what the new cluster hides |
| `AddressSnapshots.NewPageConsistent` | compact_address_map.cc:60-72 | adding a page changes no lookup |
| `AddressSnapshots.TakeForConsistent` | compact_address_map.cc:107-113 | storing in a new entry is a map update at an absent address |
| `AddressSnapshots.RecycleForConsistent` | compact_address_map.cc:126-136 | recycling an entry is a removal, and the entry holds what the map held |
| `AddressSnapshots.NewBatchConsistent` | compact_address_map.cc:96-105 | a batch of new entries changes no lookup |
| `CompactAddressMaps.CompactAddressMap.GetCluster` | compact_address_map.cc:32-46 | finds or makes the cluster of the low 52 bits of the address; the map changes only by what that hides |
| `CompactAddressMaps.CompactAddressMap.GetPage` | compact_address_map.cc:60-72 | finds or makes the page, with the same effect on the map |
| `CompactAddressMaps.CompactAddressMap.FindEntry` | compact_address_map.cc:84-94 | the walk finds the entry of the address, or null exactly if the map has none |
| `CompactAddressMaps.CompactAddressMap.Refill` | compact_address_map.cc:97-105 | 64 more entries, all on the free list, the map unchanged |
| `CompactAddressMaps.CompactAddressMap.Insert` | compact_address_map.cc:74-117 | for every address, the exact new map and the exact change of num_entries_, also when an entry is overwritten |
| `CompactAddressMaps.CompactAddressMap.FindAndRemove` | compact_address_map.cc:119-140 | true exactly if the address was in the map, with its size and hash; afterwards it is not in the map; below 2^52 no other address is touched |
| `CompactAddressMaps.InsertAndFind` | compact_address_map.cc:74-140 | whatever the map holds, what is inserted is found if and only if its address is below 2^52, with its size modulo 256 and its hash, and only once |
| `CompactAddressMaps.CompactAddressMap.SizeIsExact` | compact_address_map.h:47-49 | size() is the number of addresses if and only if there was no overwrite and nothing is hidden; stats_.num_entries is free plus live entries |
| `CompactAddressMaps.OverwriteCountsTwice` | compact_address_map.cc:86-92 | inserting twice at one address makes size() 2 with one address in the map |
| `AddressRuns.InsertIsPlain` | compact_address_map.cc:74-117 | an insert is that of a plain map if and only if the address is below 2^52 |
| `AddressRuns.FindIsPlain` | compact_address_map.cc:119-140 | a lookup is that of a plain map if and only if the address is below 2^52 or its low cluster is empty |
| `AddressRuns.RunIsPlain` | compact_address_map.cc:74-140 | any run on addresses below 2^52 returns what a plain finite map returns, and ends in the same map |
| `AddressRuns.FoundAgain` | compact_address_map.cc:32-41 | an inserted address is found again if and only if it is below 2^52 |
| `AddressRuns.HighAddress` | compact_address_map.cc:32-46 | what an operation at 2^52 or more does to every address: the entries in the megabyte of its low 52 bits are hidden, and an insert stores its entry there |
| `AddressRuns.FindAfterInsert` | compact_address_map.cc:74-140 | what is inserted below 2^52 is found once, and the map is then what it was before without the address |
| `AddressRuns.LookupLosesAnEntry` | compact_address_map.cc:32-45 | looking up 2^52 loses the entry of address 0 |
| `RankedLists.RankedList.Add` | ranked_list.cc:18-34 | the list stays the first max_size entries of the stable descending sort of everything added, for any max_size |
| `RankedLists.RankedList.HoldsTheTop` | ranked_list.cc:18-34 | the list has max_size entries, or all that were added if there are fewer, and they are the first of any stable descending sort of them |
| `RankedLists.RankedList.UpperBound` | ranked_list.cc:19-22 | the position after the last entry with at least this count |
| `RankedLists.RankedList.MoveFrom` | ranked_list.cc:12-16 | takes over bound and entries, and leaves the other list empty |
| `RankedLists.InsertSorts` | ranked_list.cc:18-29 | inserting at the upper bound keeps a stable descending sort |
| `RankedLists.StableSortIsRanked` | ranked_list.cc:18-34 | there is exactly one stable descending sort, and it is a permutation of what was added |
| `RankedLists.TopOfInsert` | ranked_list.cc:24-33 | dropping what does not fit early or late makes no difference |
| `LeakAnalyzers.LeakAnalyzer.AddSample` | leak_analyzer.cc:22-38 | keeps the invariant over the whole run: scores are streaks, reports are the values with a long enough streak, the histogram's keys are the current suspects |
| `LeakAnalyzers.LeakAnalyzer.AnalyzeDeltas` | leak_analyzer.cc:124-199 | the suspects are the values before the first major drop; the histogram becomes exactly theirs, and the report the sorted list of those with score at least the threshold |
| `LeakAnalyzers.LeakAnalyzer.IncreaseScores` | leak_analyzer.cc:175-184 | every suspect gets one more or 1; the cap on new entries never takes effect |
| `LeakAnalyzers.LeakAnalyzer.ReportLeaks` | leak_analyzer.cc:186-198 | the reported values, in rising order; the early break never takes effect |
| `LeakAnalyzers.LeakAnalyzer.GetPreviousCountForValue` | leak_analyzer.cc:201-211 | finds the first count of the value in the previous sample, and reports whether there is one |
| `LeakAnalyzers.RescoredIsStreak` | leak_analyzer.cc:164-184 | one rescoring turns streaks of a run into streaks of the run extended by this analysis |
| `LeakAnalyzers.StreakSpec` | leak_analyzer.cc:164-184 | a streak is the length of the longest unbroken run of analyses, up to the last, that suspected the value |
| `LeakAnalyzers.PositiveBeforeDrop` | leak_analyzer.cc:133-148 | every delta before the first a > 2 b drop is positive |
| `LeakAnalyzers.SuspectedMeansGrowth` | leak_analyzer.cc:29-38 | a suspected value is in both samples, with a higher count in the later one |
| `LeakAnalyzers.StreakMeansGrowth` | leak_analyzer.cc:22-38 | over a streak of k analyses the value was in k + 1 samples with strictly rising counts |
| `LeakAnalyzers.ReportedMeansStreak` | leak_analyzer.cc:186-198 | a value is reported if and only if its streak reaches the threshold |
| `LeakAnalyzers.LeakAnalyzer.ReportedValuesGrow` | leak_analyzer.cc:22-38 | any reported value was in the last threshold + 1 samples with a strictly rising count |
| `LeakAnalyzers.LeakAnalyzer.ReportsRise` | leak_detector_value_type.cc:54-67 | reports come in rising order of sizes and of call stack addresses |
| `LeakSuspects.DeltasAreRises` | leak_analyzer.cc:29-35 | the deltas have exactly one entry for each value that is in both samples, also if it did not rise, with the difference of its counts |
| `LeakSuspects.SuspectedStandsOut` | leak_analyzer.cc:124-162 | said of the rises alone, without sorting: a value is suspected if and only if it rose, somewhere below it, at one of the first ranking_size values, there is a gap by more than half, and there is none from it up |
| `LeakSuspects.RisesAlone` | leak_analyzer.cc:133-148 | a value that rose more than twice as much as every other value in both samples stands out, if there is another one and ranking_size is at least 2 |
| `LeakSuspects.ReportedStoodOut` | leak_analyzer.cc:22-38 | said of the samples alone: a value is reported if and only if it stood out at each of the last analyses, as many as the threshold says |
| `CallStackTables.CallStackTable.Add` | call_stack_table.cc:43-54 | the table counts one more of this call stack in the multiset of live ones, and num_allocs one more, modulo 2^32 |
| `CallStackTables.CallStackTable.Remove` | call_stack_table.cc:56-67 | one less, the entry vanishing with the last; an untracked call stack changes nothing |
| `CallStackTables.CallStackTable.TestForLeaks` | call_stack_table.cc:95-107 | the analyzer gets the top of all live counts, each once, in whatever order the table is walked; reports are live call stacks |
| `CallStackTables.CountsAfterRemove` | call_stack_table.cc:56-67 | a found entry is positive, so the decrement does not wrap |
| `CallStackTables.TotalsModulo` | call_stack_table.cc:52-62 | the difference of the wrapping totals is the net number modulo 2^32 |
| `CallStackManagers.CallStackManager.GetCallStack` | call_stack_manager.cc:28-57 | returns the one object with these contents, made if there was none; no other object changes |
| `CallStackManagers.CallStackManager.Find` | call_stack_manager.cc:39-41 | lookup by stored hash and contents, for any hash function |
| `LeakCounts.SizeIndexRoundTrip` | leak_detector_impl.cc:67-78 | IndexToSize and SizeToIndex undo each other on table indices |
| `LeakCounts.IndexIsSlot` | leak_detector_impl.cc:67-74 | a size is counted in the slot i with 4 i <= size < 4 i + 4 if it is below 8192, in slot 0 if below 2^33, and else in that of its quarter modulo 2^32 if it is below 2048, and else in slot 0 |
| `LeakCounts.IndexInRange` | leak_detector_impl.cc:69-74 | the index is inside the table if and only if the quarter of the size, cut off to an int, is not negative |
| `LeakCounts.NegativeIndex` | leak_detector_impl.cc:69-74 | a size of 2^33 has a negative index |
| `LeakCounts.SlotAllocCounts` | leak_detector_impl.cc:134-146 | the slot that the size belongs to counts one more allocation, modulo 2^32, its table one more of the call stack, and nothing else in any slot changes |
| `LeakCounts.SlotFreeCounts` | leak_detector_impl.cc:156-169 | the same for a free, with one more free and one call stack less |
| `LeakReports.OneMorePart` | leak_detector_impl.cc:214-239 | adding the reports of one more slot keeps them complete and in the order of the slots |
| `LeakCounts.SlotAllocAgrees` | leak_detector_impl.cc:134-146 | counting an allocation keeps each slot in agreement with the outstanding allocations |
| `LeakCounts.SlotFreeAgrees` | leak_detector_impl.cc:156-169 | so does counting a free |
| `LeakCounts.SlotCountsLive` | leak_detector_impl.cc:145-146 | num_allocs - num_frees is the number of live addresses of the slot modulo 2^32, and each tracked call stack's count its live allocations, if and only if no record of the slot was lost |
| `LeakCounts.LostRecordCounts` | leak_detector_impl.cc:145-146 | two allocations at one address are counted as two, with one live address |
| `LeakCounts.LiveIsCounted` | leak_detector_impl.cc:161-165 | a live allocation's call stack has a positive count |
| `LeakCounts.CountsBounded` | leak_detector_impl.cc:183 | every count is at most the number of outstanding allocations |
| `LeakCounts.AllocBytes` | leak_detector_impl.cc:131 | the outstanding bytes grow by the size |
| `LeakCounts.FreeBytes` | leak_detector_impl.cc:167 | and shrink by the recorded size |
| `LeakCounts.NetCount` | leak_detector_impl.cc:183 | the unsigned difference, read as an int, is the true count below 2^30 |
| `LeakTraces.CountByContents` | call_stack_manager.cc:59-63 | as many outstanding allocations point to a call stack object as were recorded with its contents |
| `LeakHistories.TableLists` | call_stack_table.cc:95-107 | a table's entries are exactly the call stacks that outstanding allocations of its size carry, with their numbers |
| `LeakSamples.SizesSampled` | leak_detector_impl.cc:178-185 | said without sorting: a check samples exactly the sixteen slots that have fewer than sixteen slots before them, with more outstanding allocations or with as many and a smaller size, in this order and with these numbers |
| `LeakSamples.StacksSampled` | call_stack_table.cc:95-107 | the sample of a table has at most sixteen call stacks, each once, with its outstanding allocations in the slot; a call stack that is left out has no more of them than each in the sample, which is then full |
| `LeakHistories.SizeGrowth` | leak_detector_impl.cc:178-185 | a size whose ranked count grew from sample to sample has ever more outstanding allocations from check to check |
| `LeakHistories.StackGrowth` | leak_detector_impl.cc:213-232 | a call stack that grew from sample to sample has ever more over the checks that were not skipped |
| `LeakHistories.CheckToCheck` | leak_detector_impl.cc:218-219 | that is growth over each of the last checks if and only if none of them was skipped |
| `LeakHistories.SkippedCheck` | leak_detector_impl.cc:218-219 | counts of 1, 2, 0 and 3: growth over the checks of the table, but not from check to check |
| `LeakDetectors.LeakDetector.constructor` | leak_detector_impl.cc:94-107 | the invariant holds at the start, whatever the uninitialised byte totals are, and both tiers get the thresholds that were passed |
| `LeakDetectors.LeakDetector.RecordAlloc` | leak_detector_impl.cc:125-147 | keeps the invariant that every slot, table and byte total agrees with the outstanding allocations; counts the allocation in the slot that its size belongs to, as said for IndexIsSlot, and in no other, and its size in alloc_size; records the call stack exactly if the size has a table and there is a stack, and keeps all other call stack objects, tables and samples |
| `LeakDetectors.LeakDetector.RecordFree` | leak_detector_impl.cc:149-170 | the same for a free, with free_size, and with all tables and samples kept; an unknown address changes nothing |
| `LeakDetectors.LeakDetector.LiveStackIsTracked` | leak_detector_impl.cc:161-165 | Remove of a recorded call stack always finds a positive entry |
| `LeakDetectors.LeakDetector.CountsAreByContents` | call_stack_table.cc:43-67 | a table's count for a call stack object is the number of outstanding allocations of the size recorded with the contents of the object, and any such contents have an object in the table |
| `LeakDetectors.LeakDetector.RankSizes` | leak_detector_impl.cc:178-184 | the ranked list was given the true net count of every size, in order |
| `LeakDetectors.LeakDetector.AddTables` | leak_detector_impl.cc:194-207 | a slot has a table afterwards if and only if it had one or its size is suspected; an old table stays the same object with its samples, and a new one is empty |
| `LeakDetectors.LeakDetector.AnalyzeTable` | call_stack_table.cc:95-107 | the analyzer of the table gets the top of the table's live counts |
| `LeakDetectors.LeakDetector.TestTables` | leak_detector_impl.cc:214-258 | every table that is not empty has been given one sample, of what is outstanding now, every other table none; the reports are those of the slots in order |
| `LeakDetectors.LeakDetector.TestForLeaks` | leak_detector_impl.cc:172-259 | keeps the invariant with this check added to the history: the size analyzer gets the top of the true counts, new tables, which are new objects, are added for suspects, each table that is not empty gets a sample of its true counts, and the reports are those of the slots in order, one for each suspected call stack: of the size 4 i, with each address inside the mapping as its distance from the start and any other as itself |
| `LeakDetectors.LeakDetector.SuspectedSizesRose` | leak_detector_impl.cc:178-185 | a suspected size has had ever more outstanding allocations over as many checks as the threshold says |
| `LeakDetectors.LeakDetector.SuspectedStacksRose` | leak_detector_impl.cc:213-234 | so has a suspected call stack, over the checks of its table; and over the last checks of all if and only if none was skipped |
| `LeakDetectors.LeakDetector.ReportedStacksRose` | leak_detector_impl.cc:231-244 | each report is on a call stack of which the slot has ever more outstanding allocations, with the size of the slot, and with the addresses of the stack, those inside the mapping as offsets |
| `LeakDetectors.LeakDetector.SuspectsStoodOut` | leak_detector_impl.cc:178-232 | in both tiers, exactly the values that stood out at each of the last checks are suspected, as many as the threshold says |
| `LeakRuns.Run` | leak_detector_impl.cc:94-259 | any events in any order on a new detector keep it valid; its records are those of the events, and its history is what was outstanding at each check |
| `LeakRuns.Apply` | leak_detector_impl.cc:125-259 | one event on a valid detector, with every object it comes to own being new |
| `LeakRuns.InSlotBySizes` | leak_detector_impl.cc:134-135 | the outstanding allocations of a slot are counted by their sizes alone |
| `LeakRuns.CountersAfter` | leak_detector_impl.cc:125-170 | after any events, num_allocs - num_frees of a slot is the number of its outstanding allocations, modulo 2^32 |
| `LeakRuns.SuspectedSizesGrew` | leak_detector_impl.cc:178-185 | after any events, a suspected size had ever more outstanding allocations at the last checks among them |
| `Hashing.Hash` | base/hash.cc:18-64 | the loop computes the rounds and the tail, then the avalanche; zero on empty input |
| `Hashing.HashStep` | base/hash.cc:66-98 | the same rounds and tail from any start |
| `HashExamples.SignedChar` | base/hash.cc:43-50 | a byte from 0x80 up enters the end cases as 0x100 less than itself |
| `HashExamples.TwoBytes` | base/hash.cc:46-61 | the hash of 81 fe is b6176482 |
| `HashExamples.ThreeBytes` | base/hash.cc:41-61 | the hash of 81 fe c3 is 92d81e58 |
| `HashExamples.WordAndTail` | base/hash.cc:18-64 | the hash of 01 92 73 84 c5 66 d7, a round and then the end case of three bytes, is 6068ab3d |
| `Hashing.FeedConcat` | base/hash.cc:66-98 | feeding a chunk of a length divisible by 4 and then another is feeding both at once |
| `Hashing.FeedAllConcat` | base/hash.cc:66-98 | so is feeding any number of chunks, if those before the last non-empty one are so |
| `Hashing.HashInStages` | base/hash.cc:18-110 | HashStep from 0 over all chunks and then HashFinish is Hash of the whole input |
| `StagedHashing.AgreesIffAligned` | base/hash.cc:18-110 | for given chunk lengths, HashStep over the chunks and then HashFinish is Hash of the whole, whatever the data, if and only if all chunks before the last non-empty one are of whole words |
| `StagedHashing.StagesAgreeIffAligned` | base/hash.cc:18-110 | under the same condition, and no weaker one, it is so after every chunk |
| `StagedHashing.Counterexample` | base/hash.cc:66-110 | whenever the condition fails, there are chunks of these lengths with another hash |
| `HashCycles.GoesRound` | base/hash.cc:73-79 | for each of the three ways to end inside a word, data that leads the two states round a circle, as often as wanted |
| `HashCycles.KeptApart` | base/hash.cc:66-110 | for any number of bytes that are left, some bytes give different hashes from the two states |
| `StagedHashing.MisalignedChunkDiffers` | base/hash.cc:66-98 | whenever a non-empty chunk starts inside a word of the data, some data is hashed wrong after it |
| `StagedHashing.UnevenChunksDiffer` | base/hash.cc:66-110 | an uneven split gives another hash |

## Left out

- `mmap`, `munmap`, `getpagesize`, arena flags, hooks, locking and signals: foreign calls; a failing `mmap` and 64-bit address overflow are not modelled.
- Blocks.RoundUpIsLeastMultiple: is on unbounded integers; that the mask expression is the same is proved on 64-bit words for the two alignments in use, 32 and 65536.
- LowLevelAlloc.DeleteArena: the checks that the arena is not one of the static ones are not modelled.
- LowLevelAlloc.Arena.DoAllocWithArena: the lazy call of `ArenaInit` is the constructor here, and `NewArena` is not modelled.
- SkiplistLevels.Random: any number from 1 up, not the pseudo-random sequence.
- Skiplist.FreeList.Search: addresses are compared as integers; that the list head of the source is an object with an address of its own plays no part.
- The width of `allocation_count` and `head->levels`: unbounded here. Scores are 32-bit, and what a report means is stated for fewer than 2^32 samples.
- CompactAddressMaps.CompactAddressMap.New: returns consecutive numbers; `allocated_objects_`, the destructor, `Delete` and the statistics other than `num_entries` are not modelled.
- CompactAddressMaps.CompactAddressMap.FindAndRemove: the copied entry's own `next` field is not part of the result.
- RankedLists.RankedList.MoveFrom: a moved-from standard list is taken to be empty; moving a list to itself is not modelled.
- LeakAnalyzers.LeakAnalyzer.ReportedValuesGrow: is for samples with distinct values and counts below 2^30, where `count * 2` does not overflow an `int`.
- LeakDetectors.LeakDetector.RecordAlloc: is for the sizes that have an index (for the others the code reads outside its table), and for fewer than 2^32 - 1 outstanding allocations, so that a call stack's own count does not wrap; addresses of the client are never the detector's own.
- LeakDetectors.LeakDetector.TestForLeaks: is for fewer than 2^30 outstanding allocations; logging, `Dump` and `DumpStats` are text output only.
- LeakRuns.Run: is for fewer than 2^30 events, which keeps the counts in the range of the two lines above.
- The 64-bit totals `num_allocs_`, `num_frees_` and `num_allocs_with_call_stack_`: they only feed `DumpStats`, as does `num_stack_tables_`.
- Values of kind `kNone`, internals of the standard containers, `leak_detector.cc`, the hooks, `main.cc`, the thin allocator wrappers and the older analyzer: not part of this model.
