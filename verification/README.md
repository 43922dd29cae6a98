# Verified model of UUtils

This project models, in Dafny, the hand-written data structures of UUtils and proves what they are for. Each
part has a model on values, with its invariants and theorems, and classes and methods in the form of the C++
code that are proved to compute what the model says.

* **Chunk allocator** (`PoolModel`, `PoolProofs`, `PoolLedger`, `PoolSteps`, `PoolRuns`, `PoolGrowth`,
  `PoolLimits`, `PoolRequests`, `DataAllocator`). Memory is a sequence of words, and the links of the free lists are words inside the
  freed blocks. A build has 4-byte or 8-byte words, with or without the debug word in front of a block. The
  bookkeeping (`Book`) says which blocks the client holds; the invariant ties it to the words in memory.
* **Item allocator** (`ItemModel`, `ItemAllocator`). A cell is a union of a link and client data.
* **Pointer table** (`PointerModel`, `PointerProofs`, `PointerRuns`, `PointerTable`). Open addressing with
  tombstones; a table stands for the multiset of the pointers in its slots.
* **Chained hash tables** (`Linkable`, `Splitting`, `BucketModel`, `Relink`, `Frames`, `BucketRuns`, `SwapRuns`,
  `RefCounter`, `TableSize`, `SwapSizes`, `HashTable`, `TwoTables`, `Enumerator`, `TableEnumerator`). A memory cell is an entry
  of an array of buckets or the `next` field of a bucket; a doubly linked bucket remembers the cell that points at it. Every
  operation is given on cells, and the chains are what hangs from them.
* **Allocation monitor and leak report** (`MonitorModel`, `MonitorProofs`, `MonitorRuns`, `MonitorPeaks`,
  `MonitorRecords`, `LeakReport`, `AllocationMonitor`). Counters are 32-bit signed integers that wrap.
* **Bits** (`Words`, `BitCount`, `BitString`, `DebugBits`, `HashMix`). Words are natural numbers below 2^32 with
  bitwise operators defined on their bits. `Lists` says when a sequence has no repetition.

What comes from outside is a parameter: where the system places a pool or an array, what uninitialised memory
holds, whether memory is available for a larger monitor table, the words that the random generator returns, and
the hash values.

## Where the code differs from its documentation

The model follows the code. For each point the project proves exactly when the promise is met.

* `array_t` grows without clearing the new entries (include/base/array_t.h:118-121), so the free-list table of
  the chunk allocator is sound only while blocks are filed below its 145 heads (`PoolGrowth.RunIsSoundIff`). Both
  places that file blocks are affected: releasing one of 145 words or more (`PoolGrowth.ReleaseRunIff`), and
  retiring a pool that has as much left (`PoolGrowth.RetireRunGrows`). The requests of
  test/base/test_allocator.cpp:43 go up to 878 integers.
* `DataAllocator::reset` promises to deallocate all pools but the base, and cuts the chain before the loop that
  would do so; the pools are lost (`PoolLimits.LeaksNothingIff`, `PoolLimits.LeakingRunLeaks`).
* In a 64-bit build a pool that is retired files only half of the words that are left, since their number is
  halved as if it were one of integers (`PoolRequests.RetireFilesHalf`).
* The assertion of `DataAllocator::allocate` lets through one request that is too large, in debug builds with
  4-byte words (`PoolLimits.AssertedBoundIff`, `PoolLimits.WholeChunkOverruns`).
* `PointerTable::has`, unlike `add` and `del`, does not assert that its argument is a valid pointer. It is exact for
  valid pointers; null counts as present while a slot is empty, so already in a new table, and the tombstone may be
  found (`PointerProofs.HasIsExactIff`, `PointerRuns.NullIsFound`, `PointerRuns.TombstoneIsFound`).
* `PointerTable::add` says true for a pointer that is present behind a tombstone, and stores it again
  (`PointerRuns.StepOnSetIff`, `PointerRuns.CleanRunIff`, `PointerRuns.StoredTwice`). A table with a repetition
  makes `operator==` fail to compare sets, on either side of it: the same set can be reported different
  (`PointerRuns.SameSetUnequal`) and different sets the same (`PointerRuns.DifferentSetsEqual`). For a first table
  without repetition `PointerRuns.EqualIsSameMembersIff` says exactly when it does, and `PointerRuns.EqualDecidesIff`
  says exactly for which tables it does against all tables without repetition.
* The precondition of `incRef` asks for a table of at most 2^n entries for a counter of n bits; what is needed
  is at least 2^n entries (`RefCounter.CounterFitsIff`, `RefCounter.DecCounterFitsIff`).
* `MAX_TABLE_SIZE` limits tables only if they, and all tables that they are swapped with, were built below it
  (`SwapSizes.PairCapHoldsIff`, `SwapSizes.SwapBreaksCap`). The load bound likewise fails for an aggressive table
  of one entry and for one that is swapped with it (`SwapSizes.PairLoadHoldsIff`), and swap exchanges the rehash
  switches too (`SwapSizes.SwapBringsDisabled`).
* `remember` asserts only that a size is not NOSIZE, but a record has no room for bit 31 and for the value NOSIZE
  in the lower bits. The books of the monitor stay right, and forgetting restores them, exactly for the other
  sizes (`MonitorRuns.StepKeepsInvIff`, `MonitorRuns.ForgetRestoresIff`).
* `debug_remember` records a null pointer, and `debug_forget` ignores it, so that record stays for ever. For every
  other user pointer the one undoes the other (`MonitorRuns.UserRestoredIff`).
* The peaks are 32-bit signed integers: the peak of the allocations is a historical maximum exactly while the amounts
  fit. `maxOverhead` is documented as the maximal overhead ever used, but rehash compares only after it has taken the
  old table off: what both tables take together is missed, first by the first rehash of a new monitor
  (`MonitorPeaks.EveryRunPeaks`, `MonitorPeaks.FirstRehashIsMissed`, `MonitorPeaks.TwoLargeBlocks`).
* The last assertion of `debug_fixGeneratedBits` is held to be out of reach. It is reached exactly when the bits set
  below bitStringSize and the bits cleared from there on, these counted modulo 2^32, are together more than
  bitStringSize (`DebugBits.FixGeneratedBits`, `DebugBits.LastStatementReached`).

## Model

| member | source | states |
|---|---|---|
| `PoolRuns.EveryRunIsSafe` | src/base/DataAllocator.cpp:46-171 | over every correctly used run of a new allocator (requests, releases, client writes into live blocks, resets) live blocks, free-listed blocks and bump space are pairwise disjoint and inside pools, each free list is acyclic and holds exactly the released blocks of its index, and every word of every pool is accounted for |
| `PoolRuns.SmallRunIsCorrect` | src/base/DataAllocator.cpp:46-151 | if all requests take fewer words than the 145 list heads of the constructor, correct use alone is enough: the table never grows and the run is safe whatever uninitialised memory holds |
| `PoolRuns.ClientDataSurvives` | src/base/DataAllocator.cpp:76-151 | over a whole run, a word of a live block that the client neither releases nor rewrites keeps its value and its block |
| `PoolRuns.RunKeepsBlock` | src/base/DataAllocator.cpp:76-151 | a block that the client does not release stays live over a whole run, with its size |
| `PoolRuns.NothingOverlaps` | src/base/DataAllocator.cpp:46-171 | after every correctly used run of a new allocator: a live block lies in one pool and overlaps no other live block, no free-listed block and no bump space |
| `PoolRuns.RunConserves` | src/base/DataAllocator.cpp:76-171 | after any run: live words + free-listed words + bump space + words rounded away = pools * CHUNK_SIZE, and nothing is rounded away where a word holds one integer |
| `PoolRuns.StepConserves` | src/base/DataAllocator.cpp:29-37 | the same balance, for one operation |
| `PoolLedger.PopConserves` | src/base/DataAllocator.cpp:89-94 | taking the head of a free list moves its words from free to live |
| `PoolLedger.BumpConserves` | src/base/DataAllocator.cpp:97-104 | taking words at the bump pointer moves them from bump space to live |
| `PoolLedger.PushConserves` | src/base/DataAllocator.cpp:146 | filing a released block moves its words from live to free |
| `PoolLedger.MergeConserves` | src/base/DataAllocator.cpp:143-145 | merging back moves the words from live to bump space |
| `PoolLedger.RetireConserves` | src/base/DataAllocator.cpp:107-111 | what is left of a retired pool is filed, less the rounding; without rounding nothing is lost |
| `PoolLedger.AddPoolConserves` | src/base/DataAllocator.cpp:114-121 | a new pool adds CHUNK_SIZE words of bump space |
| `PoolSteps.AllocateIsSafe` | src/base/DataAllocator.cpp:76-125 | in each of its branches allocate keeps the invariant and returns a block that was not live, that has room behind the debug word for the integers asked for and for less than one word more, taking nothing away from the client; a request for nothing returns null and changes nothing |
| `PoolModel.ArchSizeHolds` | src/base/DataAllocator.cpp:29-37 | arch_size: a word holds two 32-bit integers in a 64-bit build, one otherwise; n integers fit in arch_size(n) words and not in one word less |
| `PoolRequests.ClientsNeverOverlap` | src/base/DataAllocator.cpp:76-151 | a request for n integers, any run that does not release what was got, and a request for m integers: the n and the m integers do not overlap |
| `PoolRequests.RequestIsPlaced` | src/base/DataAllocator.cpp:70-125 | a request is served by the block of its size released last; if none is waiting, from the rest of the current pool; only if that is too small from a new pool, which becomes the current one |
| `PoolRequests.ReleaseThenRequestIff` | src/base/DataAllocator.cpp:76-151 | releasing a block and asking for as much returns the same block if and only if it was filed, or merged back while no other block of its size was waiting |
| `PoolRequests.RequestThenRelease` | src/base/DataAllocator.cpp:76-151 | releasing what has just been handed out is correct use and leaves the client with what it held |
| `PoolRequests.BumpedComesBack` | src/base/DataAllocator.cpp:97-151 | if it came from the rest of the pool, everything but memory is as before |
| `PoolRequests.PoppedComesBack` | src/base/DataAllocator.cpp:89-151 | so it is if it came from a free list and does not end at the bump pointer |
| `PoolRequests.RetireFilesHalf` | src/base/DataAllocator.cpp:106-111 | of w words left of a retired pool w - w / 2 are filed in a 64-bit build, the others lost; all are filed in a 32-bit build |
| `PoolRequests.ResetKeepsNewest` | src/base/DataAllocator.cpp:155-171 | reset keeps the current pool only, and the next request is served at its start |
| `PoolRequests.NewPoolSurvivesReset` | src/base/DataAllocator.cpp:114-171 | that is the pool that the last request brought, if it brought one |
| `PoolSteps.DeallocateIsSafe` | src/base/DataAllocator.cpp:129-151 | deallocate keeps the invariant, whether it merges or files |
| `PoolSteps.StepIsSafe` | src/base/DataAllocator.cpp:76-171 | every operation, client writes and reset included, keeps the heap invariant |
| `PoolSteps.ClientWordKept` | src/base/DataAllocator.cpp:76-151 | no operation of the allocator writes to the client part of a live block |
| `PoolSteps.LiveIsInPools` | src/base/DataAllocator.cpp:136-137 | the size word and the membership test that deallocate asserts hold of every live block |
| `PoolSteps.OracleIsRight` | src/base/DataAllocator.cpp:136-149 | the three assertions of deallocate hold under correct use: the stored size is right, hasInPools is true before and false after the release, on both paths |
| `PoolSteps.InPoolsIffLive` | src/base/DataAllocator.cpp:226-250 | at any time hasInPools is true of a block that was handed out, with its size, if and only if the block is live |
| `PoolProofs.PopKeepsInv` | src/base/DataAllocator.cpp:89-94 | the head of a free list is a block of exactly that size, and taking it keeps the invariant |
| `PoolProofs.BumpKeepsInv` | src/base/DataAllocator.cpp:97-104 | words taken at the bump pointer are a new block, and the invariant is kept |
| `PoolProofs.PushKeepsInv` | src/base/DataAllocator.cpp:146 | filing a live block in the list of its size keeps the invariant if the list head exists or the grown table is null |
| `PoolProofs.MergeKeepsInv` | src/base/DataAllocator.cpp:143-145 | a block that ends at the bump pointer lies in the current pool, and merging it keeps the invariant |
| `PoolProofs.RetireKeepsInv` | src/base/DataAllocator.cpp:107-111 | filing the rest of the current pool keeps the invariant |
| `PoolProofs.AddPoolKeepsInv` | src/base/DataAllocator.cpp:114-121 | making a new, disjoint pool current keeps the invariant |
| `PoolProofs.ClientWriteKeepsInv` | src/base/DataAllocator.cpp:89-94 | whatever the client writes into a live block, the links inside the free blocks stay intact |
| `PoolGrowth.FilingIsSoundIff` | include/base/array_t.h:115-123 | an operation that files a block, be it a released one or the rest of a retired pool, is sound for every content of uninitialised memory if and only if the list it files in has a head already: growing the table exposes heads that nobody has set |
| `PoolGrowth.RunIsSoundIff` | src/base/DataAllocator.cpp:76-171 | a correctly used run is sound at every step, for all contents of uninitialised memory, if and only if none of its steps files a block beyond the table |
| `PoolGrowth.ReleaseRunIff` | src/base/DataAllocator.cpp:146 | the run of a new allocator that gets a block of w words and a small one and releases the first is correctly used, and stays within the table if and only if w < 145 |
| `PoolGrowth.RetireRunGrows` | src/base/DataAllocator.cpp:107-111 | a new allocator that serves a small request and then one of a whole chunk, and releases nothing, files beyond the table |
| `PoolGrowth.GrowthHandsOutLiveBlock` | include/base/array_t.h:118-121 | otherwise some content of that memory makes the next request of one word more return a block that is live |
| `PoolGrowth.LiveBlockHandedOut` | src/base/DataAllocator.cpp:76-151 | the same from a new allocator: two requests, a release and one more request end with the client being given a block that it still holds |
| `PoolLimits.AssertedBoundIff` | src/base/DataAllocator.cpp:78 | a request that passes the assertion of allocate fits in a chunk if and only if it is not a whole chunk in a debug build with 4-byte words |
| `PoolLimits.BlockInPoolIff` | src/base/DataAllocator.cpp:97-124 | a request that no free list serves gets a block inside a pool if and only if it fits in a chunk |
| `PoolLimits.WholeChunkOverruns` | src/base/DataAllocator.cpp:78-124 | a new allocator with debug words and 4-byte words that is asked for a whole chunk returns a block that is not inside a pool |
| `PoolLimits.PoolsAccountedFor` | src/base/DataAllocator.cpp:155-171 | pools obtained = pools still chained, which the destructor deletes, + pools that resets have unlinked |
| `PoolLimits.LeaksNothingIff` | src/base/DataAllocator.cpp:59-68 | the destructor gives back all pools that a run has obtained if and only if each reset of the run finds a single pool |
| `PoolLimits.NoneUnlinkedIff` | src/base/DataAllocator.cpp:155-166 | resets unlink no pool if and only if each of them finds a single pool |
| `PoolLimits.LeakingRunLeaks` | src/base/DataAllocator.cpp:155-166 | a whole chunk, a single integer and a reset, from a new allocator: a correctly used run that leaks |
| `DataAllocator.ArrayT.constructor` | include/base/array_t.h:44-48 | at least one entry, all null |
| `DataAllocator.ArrayT.Read` | include/base/array_t.h:73 | the entry, or null outside the array |
| `DataAllocator.ArrayT.Replace` | include/base/array_t.h:92-98 | returns the old entry, stores the new one, all other entries as in the array grown for that position |
| `DataAllocator.ArrayT.EnsurePos` | include/base/array_t.h:115-123 | growth keeps all entries and exposes arbitrary new ones |
| `DataAllocator.ArrayT.Clear` | include/base/pointer.h:101-105 | all entries null |
| `DataAllocator.DataAllocator.constructor` | src/base/DataAllocator.cpp:46-55 | one empty pool, 145 null list heads |
| `DataAllocator.DataAllocator.SoundIsReady` | src/base/DataAllocator.cpp:76-151 | in every sound state all pointers that the operations follow are inside memory |
| `DataAllocator.DataAllocator.Allocate` | src/base/DataAllocator.cpp:76-125 | new state and result are those of the model, for which safety and conservation are proved |
| `DataAllocator.DataAllocator.TakeFree` | src/base/DataAllocator.cpp:90-94 | the free-list branch |
| `DataAllocator.DataAllocator.FileRest` | src/base/DataAllocator.cpp:107-111 | the rest of the current pool is filed under its rounded size |
| `DataAllocator.DataAllocator.FromNewPool` | src/base/DataAllocator.cpp:107-124 | the new-pool branch |
| `DataAllocator.DataAllocator.Deallocate` | src/base/DataAllocator.cpp:129-151 | new state as in the model |
| `DataAllocator.DataAllocator.Reset` | src/base/DataAllocator.cpp:155-171 | state as in the model; no pool is given back, since the chain is cut before the loop that should delete it; that is all pools but the base if and only if there is only the base |
| `DataAllocator.DataAllocator.Destroy` | src/base/DataAllocator.cpp:59-68 | exactly the chained pools are given back, in order |
| `DataAllocator.DataAllocator.InUsedPart` | src/base/DataAllocator.cpp:228-239 | true iff the address is in the used part of the current pool or in another pool |
| `DataAllocator.DataAllocator.InFreeList` | src/base/DataAllocator.cpp:245-247 | true iff the address is one of the blocks of the list |
| `DataAllocator.DataAllocator.HasInPools` | src/base/DataAllocator.cpp:226-250 | the pool walk and the list walk compute the membership that PoolSteps.OracleIsRight is about |
| `ItemModel.EveryRunPartitions` | include/base/ItemAllocator.h:64-126 | over every correctly used run, with any client data in live items, live and free cells partition the cells of all pools, their numbers add up to pools * numberOfItems, and the free list is acyclic |
| `ItemModel.AllocateIsSafe` | include/base/ItemAllocator.h:64-71 | allocate returns a cell of a pool, hence not null, that was not live; every other cell keeps its role |
| `ItemModel.DeallocateIsSafe` | include/base/ItemAllocator.h:79-85 | deallocate moves exactly that cell from the live ones to the front of the free list |
| `ItemModel.ReleaseThenRequest` | include/base/ItemAllocator.h:64-85 | the item released last is the next to be handed out, no pool is added, and the free list is as before |
| `ItemModel.RequestThenRelease` | include/base/ItemAllocator.h:64-85 | releasing the item just handed out restores the whole state; if a pool had to be added, all its cells are then free, in order |
| `ItemModel.StepIsSafe` | include/base/ItemAllocator.h:64-126 | every operation keeps the partition and the count |
| `ItemModel.ItemSurvives` | include/base/ItemAllocator.h:64-126 | a live item that the client neither releases nor writes keeps its content over a whole run |
| `ItemModel.NewPoolListed` | include/base/ItemAllocator.h:112-126 | the links written by addPool thread all cells of the pool in order and end in null |
| `ItemAllocator.ItemAllocator.constructor` | include/base/ItemAllocator.h:50-54 | no pools, no free items |
| `ItemAllocator.ItemAllocator.Allocate` | include/base/ItemAllocator.h:64-71 | new state and result as in the model |
| `ItemAllocator.ItemAllocator.Deallocate` | include/base/ItemAllocator.h:79-85 | new state as in the model |
| `ItemAllocator.ItemAllocator.AddPool` | include/base/ItemAllocator.h:105-126 | the do-while loop writes exactly the threaded pool |
| `ItemAllocator.ItemAllocator.Reset` | include/base/ItemAllocator.h:90-100 | all pools are given back, in order |
| `PointerProofs.HasIsExactIff` | include/hash/PointerTable.h:26-27 | has says whether the pointer is in the table for every valid pointer; for null if and only if no slot is empty, for the tombstone if and only if its probe meets no tombstone before an empty slot |
| `PointerProofs.FoundTombstoneIff` | src/hash/PointerTable.cpp:32-43 | has of the tombstone is true if and only if its probe meets a tombstone before an empty slot |
| `PointerProofs.FoundIffPresent` | src/hash/PointerTable.cpp:32-43 | for every argument but the tombstone the probe finds what some slot holds, empty slots counting as null |
| `PointerRuns.NullIsFound` | include/hash/PointerTable.h:26-27 | a new table holds nothing, and has of null is true |
| `PointerRuns.TombstoneIsFound` | include/hash/PointerTable.h:26-27 | after adding 8 to a new table and deleting it, has of the tombstone is true |
| `PointerProofs.AddTerminates` | src/hash/PointerTable.cpp:51-55 | the probe of add, which never checks for a full round, ends in every reachable table, tombstones or not |
| `PointerProofs.AddIsExact` | src/hash/PointerTable.cpp:45-65 | add keeps the probing invariant and adds one copy or nothing; it adds iff the pointer is absent or behind a tombstone |
| `PointerProofs.AddGrowsIff` | src/hash/PointerTable.cpp:51-64 | an addition doubles the table if and only if the first eight slots of its probe held other pointers or more than half of the slots hold pointers now |
| `PointerProofs.AddStoresFirst` | src/hash/PointerTable.cpp:51-58 | otherwise the pointer goes to the first slot of its probe, (p >> 3) + d modulo the size, that is null or a tombstone, and nothing else changes |
| `PointerProofs.DelIsExact` | src/hash/PointerTable.cpp:67-86 | del keeps the invariant, removes exactly one copy if there is one, and says whether there was |
| `PointerProofs.RehashKeepsAll` | src/hash/PointerTable.cpp:88-105 | rehash doubles the table, keeps every pointer with its multiplicity, drops all tombstones and restores the probing invariant |
| `PointerProofs.ClearIsOk` | src/hash/PointerTable.cpp:26-30 | an empty table of the same size that satisfies the invariant |
| `PointerProofs.NewIsOk` | src/hash/PointerTable.cpp:18-22 | the new table satisfies the invariant, is empty and has two slots |
| `PointerRuns.StepOnSetIff` | include/hash/PointerTable.h:30-34 | on a table that holds a set, a call has the result and effect it has on sets if and only if it does not add a pointer that is present behind a tombstone |
| `PointerRuns.AddOnSetIff` | src/hash/PointerTable.cpp:51-64 | the same for add alone |
| `PointerRuns.DelOnSet` | src/hash/PointerTable.cpp:67-86 | del on a table that holds a set removes the pointer from the set and says whether it was there |
| `PointerRuns.CleanRunIsSetRun` | include/hash/PointerTable.h:27-37 | every run without such an addition is a run on a set: same results of all calls, same members, size() is the cardinality |
| `PointerRuns.CleanRunIff` | include/hash/PointerTable.h:27-37 | a run agrees with the run on a set after every call, in result and members, if and only if it makes no such addition |
| `PointerRuns.WithoutDeletionsClean` | src/hash/PointerTable.cpp:45-65 | runs without del on a table without tombstones are of that kind |
| `PointerRuns.AddingAbsentClean` | src/hash/PointerTable.cpp:45-65 | so are runs that add only absent pointers |
| `PointerRuns.StoredTwice` | src/hash/PointerTable.cpp:51-64 | add 8, add 40, del 40, add 8 on a new table stores 8 twice |
| `PointerRuns.EqualMeans` | src/hash/PointerTable.cpp:107-120 | operator== holds iff both tables hold equally many pointers and each pointer of the first is in the second |
| `PointerRuns.EqualDecidesIff` | include/hash/PointerTable.h:39-40 | operator== tells whether a table has the same set of pointers as any table without repetition if and only if it has no repetition itself |
| `PointerRuns.EqualIsSameMembersIff` | include/hash/PointerTable.h:39-40 | for a table without repetition operator== is equality of the sets of pointers, if and only if the other table does not hold the same pointers with repetitions |
| `PointerRuns.EqualDecidesAllIff` | include/hash/PointerTable.h:39-40 | against every table that satisfies the invariant, repetitions included, operator== is equality of the sets for the empty table only |
| `PointerRuns.EqualDecidesContentsIff` | src/hash/PointerTable.cpp:107-120 | operator== is equality of the contents with their multiplicities if and only if the first table has no repetition |
| `PointerRuns.SameSetUnequal` | src/hash/PointerTable.cpp:107-120 | 8 stored once and 8 stored twice, both reachable: the same set, reported different |
| `PointerRuns.DifferentSetsEqual` | src/hash/PointerTable.cpp:107-120 | 8 stored twice and {8, 16}, both reachable: different sets, reported the same |
| `PointerTable.PointerTable.constructor` | src/hash/PointerTable.cpp:18-22 | a valid empty table of two slots |
| `PointerTable.PointerTable.GetIndex` | include/hash/PointerTable.h:45 | masking gives the home slot modulo the size |
| `PointerTable.PointerTable.Clear` | src/hash/PointerTable.cpp:26-30 | all slots null, count zero |
| `PointerTable.PointerTable.Search` | src/hash/PointerTable.cpp:34-41 | the probe ends at the first stop, or reports a full round iff there is none |
| `PointerTable.PointerTable.Has` | src/hash/PointerTable.cpp:32-43 | membership for a valid pointer; an empty slot for null; a tombstone on its own probe for the tombstone |
| `PointerTable.PointerTable.SearchFree` | src/hash/PointerTable.cpp:47-55 | the unchecked probe ends at the first stop and counts the retries |
| `PointerTable.PointerTable.Add` | src/hash/PointerTable.cpp:45-65 | valid afterwards; one copy more iff it returns true |
| `PointerTable.PointerTable.Del` | src/hash/PointerTable.cpp:67-86 | valid afterwards; one copy less iff it returns true, which is iff the pointer was there |
| `PointerTable.PointerTable.Rehash` | src/hash/PointerTable.cpp:88-105 | the loop computes the rehashed table of the model, and its inner search ends |
| `PointerTable.PointerTable.PlaceOne` | src/hash/PointerTable.cpp:97-101 | the unchecked search for a null slot ends, and one copy of the pointer is added |
| `PointerTable.PointerTable.Equals` | src/hash/PointerTable.cpp:107-120 | computes the comparison that PointerRuns.EqualMeans and EqualDecidesIff are about |
| `Linkable.LinkHere` | include/base/linkable.h:108-117 | link puts the bucket in front of the chain and keeps all back pointers |
| `Linkable.LinkElsewhere` | include/base/linkable.h:108-117 | link leaves every other chain alone |
| `Linkable.UnlinkRemoves` | include/base/linkable.h:125-132 | unlink takes exactly that bucket out of its chain, wherever it is, without knowing the root |
| `Linkable.UnlinkFromRemoves` | include/base/linkable.h:80-85 | unlink of a single-linked bucket through the cell that points at it takes exactly that bucket out |
| `Linkable.BypassRemoves` | include/base/linkable.h:80-132 | making the cell that points at a bucket point behind it removes it and keeps the chain linked both ways |
| `BucketModel.RehashKeepsInv` | src/hash/tables.cpp:107-150 | after rehash every bucket is in the chain that the doubled mask selects, no bucket is lost or duplicated, the size is again a power of two |
| `BucketModel.HighBit` | src/hash/tables.cpp:136-138 | the stored bit at the old size is the hash bit that the doubled mask adds, and the stored word still agrees with the hash above |
| `Splitting.SpillIsReversedHalf` | src/hash/tables.cpp:134-143 | each new chain is the reversed sub-sequence of the old chain that belongs to it |
| `Splitting.SpillMembers` | src/hash/tables.cpp:134-143 | a bucket is in a new chain iff it was in the old one and its stored bit says so |
| `Splitting.SplitWeight` | src/hash/tables.cpp:107-150 | every sum over the buckets is the same before and after; with weight one: no bucket is lost or duplicated |
| `Relink.MoveKeepsStage` | src/hash/tables.cpp:204-213 | one relinking step keeps all chains of both tables linked, back pointers included |
| `Frames.NextStage` | src/hash/tables.cpp:204-213 | the loop state after one iteration: one bucket fewer to move, the new chains one step nearer to the rehashed ones, and nothing changed outside the new array and the buckets of the table |
| `Frames.TableKept` | include/hash/tables.h:195-251 | what stays within the arrays and buckets of one table leaves the chains of any other table alone |
| `Relink.MovingEnds` | src/hash/tables.cpp:197-213 | when the chain is exhausted its two new chains are complete |
| `Relink.AllMoved` | src/hash/tables.cpp:197-218 | when all chains are moved, memory holds the rehashed table |
| `Relink.FilledIsBetween` | src/hash/tables.cpp:194-195 | clearing the upper half is all that the new array needs before the first chain is moved |
| `HashTable.DoublyLinked` | include/base/linkable.h:127 | the back-pointer invariant: the cell that a bucket remembers points at it |
| `HashTable.EnterChain` | include/base/linkable.h:108-117 | linking a new bucket at an entry leaves all chains of the table linked |
| `HashTable.LeaveChain` | include/base/linkable.h:80-132 | unlinking a bucket leaves all chains of the table linked |
| `HashTable.Memory.Link` | include/base/linkable.h:67-117 | both link methods compute the model |
| `HashTable.Memory.UnlinkFrom` | include/base/linkable.h:80-85 | computes the model |
| `HashTable.Memory.Unlink` | include/base/linkable.h:125-132 | computes the model, under the assertion of the source |
| `HashTable.Memory.IncRef` | include/hash/tables.h:80-84 | the counter in the low bits grows by one up to its maximum, the bits above are unchanged |
| `HashTable.Memory.DecRef` | include/hash/tables.h:91-97 | the counter shrinks by one unless it is at its maximum, the bits above are unchanged; true iff it is down to zero |
| `HashTable.HashTable.constructor` | include/hash/tables.h:265-276 | 2^sizePower2 empty chains |
| `HashTable.HashTable.Reset` | include/hash/tables.h:153-157 | all chains empty, size and switches unchanged |
| `HashTable.HashTable.MoveBucket` | src/hash/tables.cpp:206-210 | one bucket is linked at the entry that its stored bit selects |
| `HashTable.HashTable.MoveNext` | src/hash/tables.cpp:204-211 | the same step keeps the loop state and has one bucket fewer to go |
| `HashTable.HashTable.MoveChain` | src/hash/tables.cpp:198-214 | one chain of the old array is moved |
| `HashTable.HashTable.Rehash` | src/hash/tables.cpp:175-218 | relinking in place yields the rehashed table with all links and back pointers right, for single and double links, and touches nothing but the new array and the buckets of the table |
| `HashTable.HashTable.GetAtBucket` | include/hash/tables.h:224 | the entry at hash modulo size |
| `HashTable.HashTable.EnableRehash` | include/hash/tables.h:132 | rehashing allowed if and only if the table has fewer than 2^26 entries |
| `HashTable.HashTable.IncBuckets` | include/hash/tables.h:201-208 | one more is counted; the chains stay as they are if the count is within mask >> shiftThreshold or rehashing is off, otherwise they are the rehashed ones and rehashing is allowed below the maximum size; all chains stay linked, and nothing outside the table is touched |
| `HashTable.HashTable.Enter` | include/hash/tables.h:195-208 | link, then incBuckets: the table is valid afterwards with the new bucket, and nothing outside the table is touched |
| `HashTable.HashTable.LinkBucket` | include/hash/tables.h:195-200 | the bucket is in front of the chain of its hash, all other chains are as before |
| `HashTable.HashTable.RemoveDouble` | include/hash/tables.h:369-374 | removes exactly that bucket from any valid table, however often it has been rehashed, and touches nothing outside the table |
| `HashTable.HashTable.RemoveSingle` | include/hash/tables.h:348-357 | the search ends at the cell that points at the bucket, exactly that bucket is removed, and nothing outside the table is touched |
| `HashTable.HashTable.SearchCell` | include/hash/tables.h:350-354 | ends, at the cell that points at the bucket |
| `HashTable.HashTable.Swap` | include/hash/tables.h:234-251 | the two tables exchange their contents, and both are still linked |
| `BucketRuns.EveryRunIsOk` | include/hash/tables.h:153-251 | over every run of insertions, removals, resets, enabling, disabling and counting references: the size is a power of two, nbBuckets is the total length of the chains, the buckets are those inserted and not removed since the last reset, and each is found at hash & mask |
| `SwapRuns.EveryRunIsOk` | include/hash/tables.h:153-251 | over every run of operations on two tables that share hash values and info words, and swaps between them, both keep their invariant, they never have a bucket in common, and each holds the buckets that were inserted into what is now its array and not removed or reset |
| `SwapRuns.StepKeepsOk` | include/hash/tables.h:234-251 | one operation on either table, or a swap, keeps this |
| `TwoTables.Run` | include/hash/tables.h:201-251 | any sequence of calls on two tables in one memory, arrays being placed anywhere free, ends with both in memory and as SwapRuns.EveryRunIsOk says |
| `TwoTables.PairCall` | include/hash/tables.h:234-251 | one call on either of two tables in one memory, or a swap: both stay in memory, and the pair moves as the model says |
| `TwoTables.Insert` | include/hash/tables.h:195-208 | inserting into one table, with the rehash that may follow, leaves the other in memory as it was |
| `TwoTables.Remove` | include/hash/tables.h:348-374 | so does removing |
| `TwoTables.Reset` | include/hash/tables.h:153-157 | so does reset |
| `BucketRuns.StepKeepsInv` | include/hash/tables.h:153-218 | each operation keeps the invariant, and only insertion, removal and reset change what is in the table |
| `BucketRuns.MemberIsFound` | include/hash/tables.h:220-230 | a bucket of the table is in the chain that its hash selects and in no other |
| `BucketRuns.LinkedIn` | include/hash/tables.h:195-200 | linking adds exactly that bucket |
| `BucketRuns.TakenOut` | include/hash/tables.h:342-357 | remove takes exactly that bucket out and keeps the count right |
| `BucketRuns.IncBucketsOk` | include/hash/tables.h:201-208 | counting keeps the members, with or without a rehash |
| `RefCounter.Counts` | include/hash/tables.h:80-97 | incRef and decRef count in the low bits, saturate, and leave the bits above alone |
| `RefCounter.CounterFitsIff` | include/hash/tables.h:73-84 | incRef leaves the stored hash bits of a table of 2^k entries alone for every info word if and only if the counter has at most k bits |
| `RefCounter.DecCounterFitsIff` | include/hash/tables.h:86-97 | decRef leaves them alone for every info word that it may be called on if and only if the counter has at most k bits, or one bit, which never goes down |
| `TableSize.GaugeFollows` | include/hash/tables.h:127-218 | each operation moves size, count, threshold and rehash switch of the table as in the size model |
| `TableSize.IncGrowsIff` | include/hash/tables.h:201-208 | counting a bucket doubles the table if and only if the new count exceeds mask >> shiftThreshold and rehashing is allowed |
| `TableSize.SizeKeptIff` | include/hash/tables.h:201-293 | over a whole run a table keeps its size if and only if no bucket was counted beyond its threshold while rehashing was allowed |
| `SwapSizes.PairFollows` | include/hash/tables.h:127-251 | the same over every run of two tables with swaps |
| `SwapSizes.PairStaysInBounds` | include/hash/tables.h:283-293 | both bounds for every run of two tables, swapped at any time, whatever they hold |
| `SwapSizes.PairCapHoldsIff` | include/hash/tables.h:283-286 | no run of two tables, swapped at any time, takes one beyond 2^26 entries if and only if both were built with sizePower2 < 26 |
| `SwapSizes.SwapBreaksCap` | include/hash/tables.h:234-251 | one swap takes a table built with sizePower2 = 8 beyond 2^26 entries, the other having been built with 27 |
| `TableSize.CapHoldsIff` | include/hash/tables.h:283-286 | the cap in the same way for one table that is never swapped |
| `SwapSizes.PairLoadHoldsIff` | include/hash/tables.h:293 | while rehashing is disabled for neither of two tables, both hold at most mask >> shiftThreshold buckets below the cap, whatever is swapped, if and only if neither was built as an aggressive table of one entry |
| `SwapSizes.SwapBringsDisabled` | include/hash/tables.h:234-251 | a table for which rehashing was never disabled passes its threshold after a swap with one for which it was |
| `TableSize.LoadHoldsIff` | include/hash/tables.h:293 | the load bound in the same way for one table that is never swapped |
| `Enumerator.EnumeratesTable` | src/base/Enumerator.cpp:18-42 | call number k returns the k-th bucket of the chains taken one after the other, and null from then on |
| `Enumerator.EnumeratesEachOnce` | src/base/Enumerator.cpp:18-42 | every bucket of a table is returned by exactly one call |
| `Enumerator.NextTakesFirst` | src/base/Enumerator.cpp:18-42 | each call returns the first bucket not yet returned |
| `Enumerator.SkipEmpty` | src/base/Enumerator.cpp:26-28 | the loop skips empty entries only |
| `TableEnumerator.LinkableEnumerator.constructor` | include/base/Enumerator.h:40-42 | starts at the first entry |
| `TableEnumerator.LinkableEnumerator.GetNextLinkable` | src/base/Enumerator.cpp:18-42 | the do-while loop computes the step of the model |
| `MonitorPeaks.EveryRunPeaks` | src/debug/new.cpp:250-255 | over every run of a new monitor that records storable sizes: totalAlloc is the sum of the sized records and overhead what monitor, table and records take, modulo 2^32; peakAlloc is the largest amount ever allocated if and only if that amount fits 32 bits; maxOverhead is the largest amount that the monitor took between calls if and only if that fits, and the largest it ever took if and only if, besides, no rehash took more while both tables were allocated |
| `MonitorPeaks.FirstRehashIsMissed` | src/debug/new.cpp:454-475 | 512 live blocks in a new monitor: its first rehash takes more than maxOverhead says |
| `MonitorPeaks.RaisedCounter` | src/debug/new.cpp:454 | between the two corrections of rehash overhead holds, modulo 2^32, what monitor, both tables and records take |
| `MonitorPeaks.TwoLargeBlocks` | src/debug/new.cpp:525-529 | two live blocks of 0x60000000 bytes: the recorded peak is that of one |
| `MonitorRuns.StepKeepsInvIff` | src/debug/new.cpp:480-682 | every call that meets the assertions keeps, if and only if its size is storable (bit 31 clear, lower bits not NOSIZE) or not looked at: at most one sized record for a pointer, nbBuckets is the number of records, totalAlloc and overhead are the sums over the records modulo 2^32 |
| `MonitorRuns.NewIsOk` | src/debug/new.cpp:340-354 | the new monitor satisfies this, with 1024 empty chains and nothing counted but its own bytes |
| `MonitorRecords.RememberCounts` | src/debug/new.cpp:480-539 | remember does nothing for a registered pointer; otherwise it counts one record, the size and the bytes of a MemBucket_t, and the table doubles if and only if the count exceeds mask >> 1 and there is memory |
| `MonitorRecords.RememberAtCounts` | src/debug/new.cpp:544-629 | the same with the bytes of an ExtMemBucket_t; a size of NOSIZE is not counted and is recorded for registered pointers too |
| `MonitorRecords.Remembered` | src/debug/new.cpp:508-520 | the chain of the pointer holds a plain record of the pointer and the size |
| `MonitorRecords.RememberedAt` | src/debug/new.cpp:594-614 | the chain of the pointer holds an extended record of the pointer, the lower 31 bits of the size, the file, the line and the function |
| `MonitorRecords.RememberAtIsReported` | src/debug/new.cpp:401-629 | end to end, for every size: the leak report has one more leak of the lower 31 bits of the size at exactly that file, line and function, and every other number is as before |
| `MonitorRecords.RememberIsReported` | src/debug/new.cpp:401-539 | the same without a position, for sizes with bit 31 clear |
| `MonitorRecords.ForgetIsReported` | src/debug/new.cpp:401-658 | forget takes away the first record of the pointer with a size, or without one: one record, its size and the bytes of its kind less, and one leak less of its kind in the report, every other number as before |
| `MonitorRuns.ForgetUnregisters` | src/debug/new.cpp:636-658 | forget finds a record iff the pointer is registered, and afterwards it is not |
| `MonitorRuns.RememberedIsFound` | src/debug/new.cpp:480-539 | the record that remember has just made, with a storable size, is what forget finds, also after a rehash |
| `MonitorRuns.ForgetUndoesRemember` | src/debug/new.cpp:480-682 | for a storable size, remember followed by forget restores every sum over the records, with or without a rehash in between |
| `MonitorRuns.ForgetRestoresIff` | src/debug/new.cpp:480-682 | for every pointer and every size but NOSIZE: remember followed by forget restores nbBuckets, totalAlloc and, but for what a larger table takes, overhead, if and only if the size is storable and the pointer is neither null nor already registered; for a registered null neither call does anything |
| `MonitorRuns.ForgetRestoresAtIff` | src/debug/new.cpp:544-682 | the same for remember with a position, and for NOSIZE if the pointer is not registered |
| `MonitorRuns.UserRestoredIff` | src/debug/new.cpp:544-682 | for a user pointer, registered or recorded before or not: remember with NOSIZE followed by forget restores the same counters if and only if the pointer is not null |
| `MonitorProofs.RehashKeepsInv` | src/debug/new.cpp:442-476 | rehash keeps the invariant, and its two corrections of overhead add up to the new table size |
| `MonitorProofs.RehashedWeight` | src/debug/new.cpp:460-469 | rehash keeps every sum over the records |
| `MonitorProofs.EnterKeepsInv` | src/debug/new.cpp:508-537 | a new record that stands for what was added to totalAlloc, and is no second sized record of its pointer, keeps the invariant |
| `MonitorProofs.RememberKeepsInvIff` | src/debug/new.cpp:480-539 | for every size that passes the assertion, remember keeps the invariant if and only if the pointer is registered or the size is storable |
| `MonitorProofs.RememberAtKeepsInvIff` | src/debug/new.cpp:544-629 | the same for remember with a position, where NOSIZE stands for a user pointer |
| `MonitorProofs.ForgetKeepsInv` | src/debug/new.cpp:636-658 | forget keeps the invariant |
| `MonitorProofs.FoundIsCounted` | src/debug/new.cpp:217-221 | the assertion of dec holds whenever forget finds a record |
| `MonitorProofs.UnsizedIsExtended` | src/debug/new.cpp:643 | the assertion in the loop of forget holds of every record |
| `MonitorProofs.RecordKeeps` | src/debug/new.cpp:57-59 | what the two kinds of record keep of any size: its lower 31 bits, and bit 31 as the kind |
| `MonitorProofs.SizeWord` | src/debug/new.cpp:57-59 | BUCKETSIZE, NOSIZE and EXTENSION_BIT in arithmetic on the size word |
| `MonitorProofs.AmountKeptIff` | src/debug/new.cpp:57-59 | what a record stands for is, modulo 2^32, the size that was added to totalAlloc, if and only if the size is storable |
| `MonitorProofs.StorableOrNot` | src/debug/new.cpp:487-488 | 2^31 and 2^32 + NOSIZE pass the assertion and are not storable; 2^32 + 5 is |
| `MonitorProofs.PlainSizeKeptIff` | src/debug/new.cpp:59 | BUCKETSIZE returns the size of a plain record if and only if it is below 2^31 |
| `AllocationMonitor.NewPointerTable.constructor` | src/debug/new.cpp:340-354 | computes the new monitor of the model |
| `AllocationMonitor.NewPointerTable.Rehash` | src/debug/new.cpp:442-476 | the loops compute the rehash of the model; without memory nothing changes |
| `AllocationMonitor.NewPointerTable.MoveChain` | src/debug/new.cpp:461-468 | one chain is split as in the model, all others are unchanged |
| `AllocationMonitor.NewPointerTable.IsRegistered` | src/debug/new.cpp:495-506 | true iff the chain has a sized record of the pointer |
| `AllocationMonitor.NewPointerTable.AddBucket` | src/debug/new.cpp:510-537 | record, counters and peaks as in the model |
| `AllocationMonitor.NewPointerTable.Remember` | src/debug/new.cpp:480-539 | for every size that passes the assertion: state as in the model, and valid afterwards if and only if the size is storable or the pointer registered |
| `AllocationMonitor.NewPointerTable.RememberAt` | src/debug/new.cpp:544-629 | for every size: state as in the model, and valid afterwards under the same condition |
| `AllocationMonitor.NewPointerTable.Search` | src/debug/new.cpp:642-658 | the first record of the pointer that is of the wanted kind |
| `AllocationMonitor.NewPointerTable.Forget` | src/debug/new.cpp:636-658 | valid afterwards, state as in the model |
| `LeakReport.ReportCountsRecords` | src/debug/new.cpp:287-306 | after the gathering loop the report has at most one entry for each size and position, and its number is exactly the number of records of that kind, zero without an entry |
| `LeakReport.KindOf` | src/debug/new.cpp:405-412 | the kind of a record, field by field: the size without a position, or the lower 31 bits of the size with the position |
| `LeakReport.AddLeakAt` | src/debug/new.cpp:287-306 | addLeak changes only the entry selected by size ^ file ^ line ^ function: the first leak of the kind counts one more, or a new one is put in front |
| `LeakReport.ReportAgrees` | src/debug/new.cpp:404-417 | the numbers of the report add up to nbBuckets, and number * size over the sized entries to totalAlloc (modulo 2^32) |
| `LeakReport.AddLeakWeight` | src/debug/new.cpp:287-306 | addLeak adds one leak of its kind to every sum over the report |
| `LeakReport.GatherAllWeight` | src/debug/new.cpp:404-417 | every sum over the report is the sum over the records |
| `LeakReport.GatherAllOk` | src/debug/new.cpp:287-306 | the report never has two entries of one kind: equal kinds have equal hash values |
| `AllocationMonitor.StatsTable.AddLeak` | src/debug/new.cpp:287-306 | the search and the update compute the model |
| `AllocationMonitor.NewPointerTable.GatherLeaks` | src/debug/new.cpp:401-417 | the report of the destructor agrees with nbBuckets and totalAlloc |
| `BitCount.BaseCountBits` | include/base/bitstring.h:38-47 | the parallel count is the number of set bits, for every 32-bit word |
| `BitCount.CountSetAndClear` | src/debug/utils.cpp:331-353 | setting or clearing one bit changes the count by one exactly when the bit changes |
| `BitString.CountBitsN` | include/base/bitstring.h:54-61 | the number of set bits of the string, in 32 bits |
| `BitString.Bits2IndexTable` | src/base/bitstring.c:20-35 | writes the number of set bits below it at every set position, touches nothing else, and returns the number of set bits |
| `BitString.IndexWord` | src/base/bitstring.c:28-31 | the same for one word |
| `BitString.Bits2IndexTableOK` | src/debug/utils.cpp:427-449 | accepts exactly the tables that hold these ranks at the set positions, with exactly that total |
| `BitString.CheckWord` | src/debug/utils.cpp:433-445 | the same for one word |
| `BitString.WriterMeetsChecker` | src/debug/utils.cpp:424-449 | the checker accepts what base_bits2indexTable has written if and only if no rank exceeds 32 bits |
| `DebugBits.GenerateBits` | src/debug/utils.cpp:307-361 | exactly nbits set bits for every sequence of random words, and which: the first nbits positions that are set in the random words, bit 0 of each word counting as set if bit1; if there are fewer, all of these and the first other positions; all loops end |
| `DebugBits.DrawnExactly` | src/debug/utils.cpp:319-361 | if the random words have exactly nbits bits set, they are the result |
| `DebugBits.TrimWord` | src/debug/utils.cpp:323-337 | clears exactly the given number of bits, the highest ones: a bit stays if it was set and few enough set bits are below it |
| `DebugBits.FillWord` | src/debug/utils.cpp:348-355 | sets the lowest unset bits, exactly as many as are taken off the number of missing ones, until none is missing or the word is full |
| `DebugBits.FirstPass` | src/debug/utils.cpp:319-343 | the first nbits positions that are set in the random words, bit 0 of each word counting as set if bit1, and no other; exactly how many bits are still missing |
| `DebugBits.SecondPass` | src/debug/utils.cpp:345-357 | the first unset positions are set, exactly as many as are missing, and nothing is cleared |
| `DebugBits.ResetBits` | include/base/bitstring.h:71-76 | no bit is set afterwards |
| `DebugBits.FixGeneratedBits` | src/debug/utils.cpp:363-422 | clears every position from bitStringSize on and sets a range that ends there; the number of set bits is kept if and only if it is at most bitStringSize and fewer than 2^32 bits are cleared; exactly how many bits are lost otherwise, and exactly when the last assertion is reached |
| `DebugBits.PackedIsDetermined` | src/debug/utils.cpp:363-422 | that description and the number of set bits decide every bit of the result |
| `DebugBits.LastStatementReached` | src/debug/utils.cpp:419-420 | a single set bit and bitStringSize 0: the last assertion is reached |
| `DebugBits.ClearFrom` | src/debug/utils.cpp:374-393 | clears every position from bitStringSize on and counts, in 32 bits, what was set there |
| `DebugBits.Refill` | src/debug/utils.cpp:398-417 | sets unset positions below bitStringSize, highest first, one for each cleared bit while there is room |
| `HashMix.MixIsReversible` | include/hash/compute.h:36-86 | the mix is a bijection on triples of 32-bit words, with an explicit inverse on both sides |
| `HashMix.HashMix` | include/hash/compute.h:56-85 | the nine rounds in arithmetic: each word less the two others modulo 2^32, xored with a word multiplied or divided by the power of two of its shift; the inverse gives the arguments back |
| `HashMix.KnownAnswer` | include/hash/compute.h:56-85 | the mix of 0, 0, 0x2000 is 0x134f862a, 0x8e53a7af, 0xfc0b84e0 |
| `HashMix.RoundUndone` | include/hash/compute.h:58-60 | one round is undone by its inverse, and the other way round |
| `HashMix.HashCompute3` | include/hash/compute.h:165-169 | returns the third word of the mix |
| `HashMix.CombinedHashIsBalanced` | include/hash/compute.h:161-169 | every hash value is reached from equally many triples: its preimages correspond one to one to pairs of words |

## Left out

- Printing, statistics, tracing, timers, platform calls and exceptions: output and system calls only.
- `hash_compute`, murmur2 and xxHash: a hash value is any 32-bit word.
- sequence_filter.hpp, relation.h, svector.hpp, intutils.h, meta.hpp and the single-bit wrappers of bitstring.h: they would only add easy members.
- `array_t::operator=`, its copy constructor, `set` and `add`: the allocator does not use them.
- `resetDelete` and the freeing loops of the other destructors: they only give memory back.
- The monitor after its destructor has run, `minAlloc`, `maxAlloc`, the position kept by `prepareDelete`, and its warnings.
- Failing memory allocation, except in the rehash of the monitor; tables so large that their size wraps around in 32 bits; the unbounded counters `nbBuckets` and `nb`.
- PoolModel.State: the chain of pools is a sequence of pools; the link word in front of each pool is reserved but not written.
- Alignment of pools and pointers, and byte addresses: an address is the number of a word.
- AllocationMonitor.NewPointerTable: the chains are sequences of records that the methods reassign, so relinking in place is not modelled here; it is the subject of Linkable and HashTable.
- ItemModel.Item: a cell is named by its pool and its position, so that pools cannot overlap by construction; the word layout of a pool is not modelled.
- HashTable.HashTable.Enter: linking a bucket and counting it are two calls in the source; the method makes them in the order that the documentation of incBuckets asks for.
