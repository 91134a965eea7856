# Verified model of the tjost audio host

This Dafny project models the parts of the host that have to be right at run
time without a second try: its real-time memory allocator, the accounting and
growth of its memory, the scheduling of events in audio periods, the pipe
between its threads, and the intrusive list. `dafny verify dfyconfig.toml`
checks all of it.

**Allocator** (`tlsf-3.0`). `Bits` and `SizeClass` hold the bit scans and the
two-level size classes. `Heap` is the abstract state: a map from addresses to
blocks that tile the pools, a list of free blocks per class, the pools, and one
invariant over them. `Policy` states every operation on that state, `Aligned`,
`Live`, `Identity` and `Runs` prove what they promise, alone and over whole
runs, and `Limits` says exactly where the code stops keeping the invariant.
`Memory`, `Bytes` and `PoolMemory` say when an array of 8-byte words holds a
state, with header flags in the size word, the back link in the last payload
word of the block before, and list links inside free payloads. `Allocator.Tlsf`
is the allocator itself over such an array and the two bitmaps, method by
method; every method keeps memory and state in agreement. `Client` composes two
calls.

**Memory of the host** (`tjost.c`). `Accounting` relates the counter `used` to
the live blocks, `Growth` is the two-thread handshake that adds chunks, `Host`
is the code over the allocator.

**Scheduling** (`tjost.c`, `modules/`). `Scheduler` has the queues, the drain,
the fan-out, runs of periods and the loopback module; `Cv` the change encoder,
the sample-and-hold decoder and their round trip.

**Pipe and list.** `Pipe` interleaves the pieces of a producer and a consumer
over a bounded ring of bytes. `Inlist` is the list of `inlist/inlist.h` as heap
nodes that refine a sequence.

Addresses are word addresses: a block stands for its header, its pointer is two
words further, 0 is null and the null block of the control structure is at
word 1. Sizes are in words in the abstract state and in bytes in the code.

## What the code does not promise

Some properties that one would expect are false in some cases. Each has a lemma
with the exact condition.

- `tlsf_malloc`, `tlsf_memalign` and the moving path of `tlsf_realloc` look up a
  list past the end of the table when they search for more than 2^32 - 2^26 bytes
  (`Limits.SearchInside`, `SizeClass.LargeRequestLeavesTable`,
  `Limits.LargeAlignedWitness`). The abstract operations are not defined there.
- `tlsf_add_pool` accepts a pool of exactly 2^32 bytes, which has no list
  (`Allocator.PoolListed`).
- `tlsf_memalign` with a request that adjusts to 0 and an alignment above 8
  carves a block without a payload (`Limits.MemalignExact`,
  `Limits.EmptyAlignedWitness`); `tlsf_realloc` of a live block of 32 bytes or
  more to 2^32 bytes or more does the same and reports success
  (`Limits.ReallocTooLarge`, `Limits.ReallocRoom`, `Limits.LargeReallocWitness`).
- A failed `tjost_realloc` leaves a live block that `used` no longer counts
  (`Accounting.UsedIsLive`, `Accounting.LosingRun`).
- `mmap` reports a failure by an address that passes the test for null. The chunk
  is handed over, rejected by `tlsf_add_pool`, and still listed and counted
  (`Growth.FailedMapping`), so `rtmem_sum` is the memory there is if and only if
  every chunk after the first was accepted (`Growth.CountsPools`), and
  `tjost_free_memory` then removes a pool that is null (`Host.RemovalsSound`).
- An event goes out at the frame it is stamped for if and only if the 32-bit
  frame count does not wrap within the period (`Scheduler.DueUnlessWrapped`). If
  it wraps, events stamped before the wrap stay in the queue, and those stamped
  behind it go out early, at the start of the period (`Scheduler.WrappedStamp`,
  `Scheduler.TwoFramesEarly`); control voltage is then reproduced if and only if
  it stays at the held value (`Cv.PeriodExact`, `Cv.WrappedWitness`).
- Events of one delivery time are in order of arrival only if they arrive in
  order of time: late events keep the order of their past times, and an
  immediate event overtakes them (`Scheduler.TiesAtStart`,
  `Scheduler.Overtaken`). The loopback module schedules a late event two periods
  ahead although its comment says the next (`Scheduler.LoopedLater`,
  `Scheduler.LoopedTwice`). A zero loses its sign when it follows a zero of the
  other sign (`Cv.OutputIsInput`, `Cv.SignLost`).

## Model

| member | source | states |
|---|---|---|
| `Bits.FlsGeneric` | tlsf-3.0/tlsfbits.h:130-142 | The step-by-step shifts compute one plus floor(log2) of every 32-bit word, 0 for zero |
| `Bits.FlsSizet` | tlsf-3.0/tlsfbits.h:157-173 | floor(log2) of every 64-bit size, whichever half holds the top bit |
| `Bits.Ffs` | tlsf-3.0/tlsfbits.h:144-148 | -1 for zero; otherwise the returned bit is set and no lower bit is |
| `SizeClass.AlignUpLeast` | tlsf-3.0/tlsf.c:275-279 | The mask yields the least multiple of the power of two that is not below the argument |
| `SizeClass.AlignDownGreatest` | tlsf-3.0/tlsf.c:281-285 | The mask yields the greatest multiple that is not above the argument |
| `SizeClass.AdjustedRequest` | tlsf-3.0/tlsf.c:295-309 | For alignment 8 the adjusted size is 0 exactly for size 0 and sizes of 2^32 and more; otherwise it is a multiple of 8, at least 24 and at least the request, and 24 or less than the request plus 8 |
| `SizeClass.ClassInterval` | tlsf-3.0/tlsf.c:315-332 | A size maps to a class if and only if it lies in the class's interval [Lo, Lo + Width) |
| `SizeClass.Contiguous` | tlsf-3.0/tlsf.c:315-332 | The intervals of consecutive classes meet exactly, also at 256 bytes and at every power of two |
| `SizeClass.InsertMonotone` | tlsf-3.0/tlsf.c:315-332 | mapping_insert is monotone in the lexicographic order of classes |
| `SizeClass.InsertInTable` | tlsf-3.0/tlsf.c:315-332 | The class of a size is in the table if and only if the size is below 2^32 |
| `SizeClass.SearchExact` | tlsf-3.0/tlsf.c:335-343 | For an aligned request, a class is at or above the one searched if and only if all of its sizes are large enough |
| `SizeClass.GoodFit` | tlsf-3.0/tlsf.c:335-343 | Every block whose class is at or above the searched one has at least the requested size |
| `SizeClass.RoundedFits` | tlsf-3.0/tlsf.c:335-343 | A block of the rounded size or more is in a class at or above the searched one |
| `SizeClass.RoundingLoss` | tlsf-3.0/tlsf.c:335-343 | Rounding adds less than 1/32 of a request that is not empty |
| `SizeClass.SearchInTable` | tlsf-3.0/tlsf.c:335-354 | The searched class is in the table if and only if the adjusted size is at most 2^32 - 2^26 |
| `SizeClass.LargeRequestLeavesTable` | tlsf-3.0/tlsf.c:335-354 | A request that tlsf_malloc accepts and whose search index is one past the table |
| `SizeClass.PoolAcceptedExactly` | tlsf-3.0/tlsf.c:770-796 | tlsf_add_pool accepts memory if and only if it is aligned to 8 and has at least 40 and fewer than 2^32 + 24 bytes |
| `Heap.SplitInv` | tlsf-3.0/tlsf.c:449-468 | Splitting keeps the whole heap invariant, with the rest as a free block in hand |
| `Heap.AbsorbInv` | tlsf-3.0/tlsf.c:471-478 | Joining a block with the free block behind it keeps the invariant |
| `Heap.RemoveInv` | tlsf-3.0/tlsf.c:378-404 | Unlisting a free block keeps the invariant, with that block in hand |
| `Heap.InsertInv` | tlsf-3.0/tlsf.c:407-425 | Listing the block in hand keeps the invariant when its neighbours are in use |
| `Policy.ScanSpec` | tlsf-3.0/tlsf.c:345-375 | The linear scan that the bitmaps stand for stops at the least class at or above the start with a non-empty list, or past the table if there is none |
| `Policy.LocateFacts` | tlsf-3.0/tlsf.c:555-573 | For a search inside the table: the block located is the head of its list and at least as large as the request; failing changes nothing |
| `Policy.MallocInv` | tlsf-3.0/tlsf.c:905-911 | For a search inside the table tlsf_malloc keeps the invariant in both outcomes, and failing changes nothing |
| `Policy.FreeInv` | tlsf-3.0/tlsf.c:967-980 | tlsf_free keeps the invariant: both neighbours are merged and the result is listed once |
| `Policy.AddPoolInv` | tlsf-3.0/tlsf.c:770-817 | A new pool apart from the others keeps the invariant |
| `Policy.RemovePoolInv` | tlsf-3.0/tlsf.c:819-832 | Removing an unused pool keeps the invariant for all other pools |
| `Aligned.GapBounds` | tlsf-3.0/tlsf.c:930-955 | The gap is 0 or at least 32 bytes, at most align + 24, and puts the pointer on a multiple of the alignment |
| `Aligned.GapLeast` | tlsf-3.0/tlsf.c:930-955 | Of all aligned addresses that are the payload's own or leave at least 32 bytes in front, the gap leads to the least |
| `Aligned.AlignedWords` | tlsf-3.0/tlsf.c:916-928 | Above alignment 8 the size searched for is the least multiple of the alignment that holds the adjusted request, the alignment and 32 bytes, or 0 if those are 2^32 or more; up to 8 it is the adjusted request |
| `Aligned.GapFits` | tlsf-3.0/tlsf.c:916-955 | In a block of the size searched for, the gap can always be split off and the request still fits behind it |
| `Aligned.MemalignInv` | tlsf-3.0/tlsf.c:913-965 | For every power of two and every request that adjusts to a size and is searched for inside the table, tlsf_memalign keeps the invariant and returns an aligned block with room, or changes nothing |
| `Live.MallocUsed` | tlsf-3.0/tlsf.c:905-911 | The block given was free, has the words asked for and fewer than four more, and every other live block stays as it was |
| `Live.FreeUsed` | tlsf-3.0/tlsf.c:967-980 | tlsf_free takes exactly the given block out of use |
| `Live.MovesExactly` | tlsf-3.0/tlsf.c:1016-1023 | For every request: the comparison with the sizes of the block and of the free block behind it says that the block must move if and only if some block in use, or the sentinel, starts within the words asked for |
| `Live.ReallocKeeps` | tlsf-3.0/tlsf.c:995-1051 | Below 2^32, and with any search inside the table, tlsf_realloc keeps the invariant; it stays in place if and only if no block in use starts within the words asked for, and otherwise gives what tlsf_malloc would; it fails only without a change, returns room for the request but fewer than four words more, and touches no other live block |
| `Live.MemalignUsed` | tlsf-3.0/tlsf.c:913-965 | An aligned block was free before, has the words asked for and fewer than four more, and every other live block stays as it was |
| `Identity.MallocThenFree` | tlsf-3.0/tlsf.c:905-911 | Freeing the block just given restores tiling, pools and the order of every free list |
| `Identity.MemalignThenFree` | tlsf-3.0/tlsf.c:913-980 | The same for an aligned block, whether a gap, a tail, both or neither was split off |
| `Identity.AddThenRemove` | tlsf-3.0/tlsf.c:770-832 | A new pool is one free block of its full size before a sentinel, and removing it restores tiling, pools and the order of every free list |
| `Client.BitmapsUnique` | tlsf-3.0/tlsf.c:345-425 | Two pairs of bitmaps that go with the same lists are equal |
| `Client.MallocAndFree` | tlsf-3.0/tlsf.c:905-980 | On the memory itself: malloc and free leave lists, bitmaps, list heads and every live payload word as they were |
| `Client.MemalignAndFree` | tlsf-3.0/tlsf.c:913-980 | The same on the memory for tlsf_memalign, for every alignment |
| `Runs.PoolConserved` | tlsf-3.0/tlsf.c:694-709 | The walk of a pool visits each of its blocks once in address order, and sizes plus headers add up to the pool |
| `Runs.LiveDisjoint` | tlsf-3.0/tlsf.c:103-140 | No word is in the payload of two live blocks, or in a payload and a size field |
| `Runs.MallocSucceeds` | tlsf-3.0/tlsf.c:555-573 | For a search inside the table, tlsf_malloc finds a block if and only if some free block is in a class at or above the searched one |
| `Runs.GoodFitGiven` | tlsf-3.0/tlsf.c:555-573 | The block tlsf_malloc hands out is the first in the list of the least class, at or above the searched one, that has a free block |
| `Runs.MemalignGives` | tlsf-3.0/tlsf.c:913-965 | tlsf_memalign fails if and only if no free block is in a class at or above the searched one; otherwise the payload is at the least admissible aligned address in the first block of the least suitable class |
| `Runs.MallocFailure` | tlsf-3.0/tlsf.c:905-911 | After a failure of such a search every free block is below the rounded size, so within 1/32 of the request |
| `Runs.StepInv` | tlsf-3.0/tlsf.c:770-1051 | Each of the six public operations keeps the invariant, under the conditions that Limits shows to be exact |
| `Runs.Reachable` | tlsf-3.0/tlsf.c:770-1051 | The invariant holds after every sequence of legal calls on an empty allocator |
| `Runs.DrainedPool` | tlsf-3.0/tlsf.c:819-832 | From any reachable state, freeing in any order live blocks among which are all those of a pool makes it one block of its full size, which tlsf_remove_pool accepts, whatever stays live in other pools |
| `Runs.RemovalExact` | tlsf-3.0/tlsf.c:819-832 | The assertions of tlsf_remove_pool hold for a pool if and only if none of its blocks is live |
| `Limits.ReallocTooLarge` | tlsf-3.0/tlsf.c:1017-1045 | tlsf_realloc of a live block to 2^32 bytes or more returns the block, and keeps the invariant if and only if the block is below 32 bytes |
| `Limits.ReallocRoom` | tlsf-3.0/tlsf.c:1017-1050 | A pointer that tlsf_realloc returns for a live block has room for the size if and only if the size is below 2^32 |
| `Limits.LargeReallocWitness` | tlsf-3.0/tlsf.c:1017-1045 | A reachable state and block for which this breaks the invariant |
| `Limits.MemalignExact` | tlsf-3.0/tlsf.c:913-965 | tlsf_memalign searches inside the table and keeps the invariant if and only if the search is for at most 2^32 - 2^26 bytes and the request adjusts to a size, the alignment is at most 8, or no free block is in a class at or above the searched one |
| `Limits.SearchInside` | tlsf-3.0/tlsf.c:335-354 | A search stays in the table if and only if it is for at most 2^32 - 2^26 bytes |
| `Limits.EmptyAlignedWitness` | tlsf-3.0/tlsf.c:913-965 | A reachable state in which tlsf_memalign(16, 0) breaks the invariant |
| `Limits.LargeAlignedWitness` | tlsf-3.0/tlsf.c:913-965 | tlsf_memalign(16, 0xffff0000) leaves the table in every state |
| `Allocator.PoolListed` | tlsf-3.0/tlsf.c:770-796 | Of the accepted pools exactly those of 2^32 bytes have no free list; the size test lets them through |
| `Memory.StaleFlags` | tlsf-3.0/tlsf.c:178-182 | Writing a size keeps whatever flag bits the word had |
| `Memory.SplitMirror` | tlsf-3.0/tlsf.c:449-468 | After the writes of a split memory holds the split state, whatever bits the new header had, and no live payload word changed |
| `Memory.AbsorbMirror` | tlsf-3.0/tlsf.c:471-478 | The same for joining two blocks |
| `Memory.RemoveMirror` | tlsf-3.0/tlsf.c:378-391 | Unlinking a node makes memory hold the list without it, and no live payload word changes |
| `Memory.InsertMirror` | tlsf-3.0/tlsf.c:407-425 | Linking a node in front of its list, likewise |
| `PoolMemory.AddPoolMirror` | tlsf-3.0/tlsf.c:770-817 | The header and sentinel of a new pool are right whatever the memory held before |
| `Bytes.SameBytesOfWords` | tlsf-3.0/tlsf.c:1030-1032 | Copied words make the first bytes of both buffers equal |
| `Bytes.MemCopy` | tlsf-3.0/tlsf.c:1031 | The first n bytes arrive and nothing outside the copied words changes |
| `Allocator.Tlsf.constructor` | tlsf-3.0/tlsf.c:588-605 | The empty allocator, over memory with arbitrary contents |
| `Allocator.Tlsf.SearchSuitable` | tlsf-3.0/tlsf.c:345-375 | The two bit scans return exactly what the linear scan finds: nothing, or the head of the least suitable list |
| `Allocator.Tlsf.RemoveFreeBlock` | tlsf-3.0/tlsf.c:378-404 | Lists, heads and both bitmaps lose exactly the block, wherever it stands in its list |
| `Allocator.Tlsf.InsertFreeBlock` | tlsf-3.0/tlsf.c:407-425 | The block becomes the head of the list of its class and both bits are set |
| `Allocator.Tlsf.BlockSplit` | tlsf-3.0/tlsf.c:449-468 | Exactly the header words of a split are written |
| `Allocator.Tlsf.BlockAbsorb` | tlsf-3.0/tlsf.c:471-478 | Exactly the size word and the back link are written |
| `Allocator.Tlsf.BlockMergePrev` | tlsf-3.0/tlsf.c:481-493 | Memory and state follow the abstract merge; no live payload word changes |
| `Allocator.Tlsf.BlockMergeNext` | tlsf-3.0/tlsf.c:496-509 | Likewise for the block behind |
| `Allocator.Tlsf.BlockTrimFree` | tlsf-3.0/tlsf.c:512-522 | The tail of a free block in hand becomes a listed free block |
| `Allocator.Tlsf.BlockTrimUsed` | tlsf-3.0/tlsf.c:525-537 | The tail of a block in use is merged forward and listed and the kept payload stays; a block too small to split stays whole |
| `Allocator.Tlsf.BlockTrimFreeLeading` | tlsf-3.0/tlsf.c:539-553 | The leading part becomes a listed free block and the rest is in hand; a block too small to split stays whole |
| `Allocator.Tlsf.BlockLocateFree` | tlsf-3.0/tlsf.c:555-573 | The state after the search is the abstract one, in both outcomes |
| `Allocator.Tlsf.BlockPrepareUsed` | tlsf-3.0/tlsf.c:575-585 | The located block is trimmed and in use |
| `Allocator.Tlsf.Malloc` | tlsf-3.0/tlsf.c:905-911 | Keeps the invariant and memory's agreement with the state; returns null if and only if no free block is in a class at or above the searched one, with nothing changed, and otherwise the first block of the least such class, with room; no live payload word changes |
| `Allocator.Tlsf.Memalign` | tlsf-3.0/tlsf.c:913-965 | The same, and the pointer is the least admissible multiple of the alignment in the block located |
| `Allocator.Tlsf.Free` | tlsf-3.0/tlsf.c:967-980 | The block is merged and listed; the payload of every other live block stays |
| `Allocator.Tlsf.Realloc` | tlsf-3.0/tlsf.c:995-1051 | All entry cases; a live pointer is kept if and only if no block in use starts within the words asked for, null is returned if and only if there is neither that room nor a suitable free block, and otherwise the pointer is that of tlsf_malloc; keeps the first min(old block size, new size) bytes on every path, changes nothing on failure, and no other live payload |
| `Allocator.Tlsf.AddPool` | tlsf-3.0/tlsf.c:770-817 | Returns the address if it is aligned and the memory has at least 40 and fewer than 2^32 + 24 bytes, null otherwise; the pool is one free block of all but 16 bytes, rounded down, and a sentinel |
| `Allocator.Tlsf.RemovePool` | tlsf-3.0/tlsf.c:819-832 | The pool's block leaves its list and the others stay |
| `Allocator.Tlsf.Check` | tlsf-3.0/tlsf.c:634-684 | On whatever lists memory holds, tlsf_check returns 0 if and only if everything it insists on holds for every list and every block on it |
| `Allocator.Tlsf.ValidChecks` | tlsf-3.0/tlsf.c:634-684 | In every valid state all of that holds for the abstract lists, so tlsf_check returns 0 |
| `Allocator.Tlsf.WalkPool` | tlsf-3.0/tlsf.c:694-709 | The walker is called for exactly the blocks on the physical trail, in order, with their pointers, sizes and use |
| `Allocator.Tlsf.CheckPool` | tlsf-3.0/tlsf.c:618-729 | On whatever trail memory holds, tlsf_check_pool returns 0 if and only if every previous-block flag agrees with the block before |
| `Allocator.Tlsf.ValidPool` | tlsf-3.0/tlsf.c:618-729 | In every valid state the trail of a pool is its abstract walk, the walker sees what the state says, and every flag agrees |
| `Allocator.Tlsf.UsableSize` | tlsf-3.0/tlsf.c:711-720 | The payload size of a live pointer, 0 for null |
| `Accounting.LiveChanges` | tjost.c:261-306 | The sum of live sizes changes by what changes at the two blocks an operation touches |
| `Accounting.BookBalanced` | tjost.c:261-306 | Every call keeps the counter equal, modulo 2^64, to the live bytes less the debt; only a failed resize of a live block adds to the debt, by the size of that block |
| `Accounting.UsedIsLive` | tjost.c:261-306 | In every run the counter is the live bytes less what failed resizes lost, modulo 2^64, and equals the live bytes if and only if that loss is a multiple of 2^64; the loss is 0 if and only if there was no resize of a block that had no room where it was while no free block was in a class the search can reach |
| `Accounting.FailsExactly` | tlsf-3.0/tlsf.c:1017-1034 | tlsf_realloc of a live block returns null if and only if some block in use starts within the words asked for and no free block is in a class at or above the searched one |
| `Accounting.LosingRun` | tjost.c:261-306 | A run of three calls after which the counter is not the live bytes |
| `Host.MemoryHost.constructor` | tjost.c:413-421 | The first chunk's pool, the counters at their start |
| `Host.MemoryHost.Alloc` | tjost.c:261-278 | Heap and counter follow the ledger, and the pointer is that of tlsf_malloc; when the flag is clear and more than half is used, it is set and one asynchronous send made, and not otherwise |
| `Host.MemoryHost.Realloc` | tjost.c:280-299 | The same, with the pointer that of tlsf_realloc; when a live block cannot be resized, it stays live and its size goes to the debt |
| `Host.MemoryHost.Free` | tjost.c:301-306 | The same |
| `Host.MemoryHost.AddMemory` | tjost.c:229-245 | The next chunk becomes a pool if tlsf_add_pool accepts it, and is listed and counted in any case; the flag is cleared; without a chunk nothing changes |
| `Host.MemoryHost.FreeMemory` | tjost.c:247-259 | With nothing live and every chunk after the first accepted, all pools are removed whatever the order of the chunks: no pool and no block is left and rtmem_sum is 0 |
| `Host.RemovalsSound` | tjost.c:247-259 | Every removal is of a pool that meets the assertions of tlsf_remove_pool if and only if every chunk listed after the first was accepted and no block is live |
| `Host.StillDrained` | tlsf-3.0/tlsf.c:819-832 | Removing one unused pool leaves every other unused pool removable |
| `Growth.StepKeeps` | tjost.c:210-245 | Every step of either thread keeps: the flag is set exactly while one request is under way; the ring does not overflow; rtmem_sum is the total of the chunks; a chunk has a pool if and only if tlsf_add_pool accepted it |
| `Growth.AcceptedExactly` | tjost.c:178-245 | A chunk gets a pool if and only if its address is aligned to 8 and its size from 40 to 2^32 + 23 bytes, so every aligned chunk of the size the host maps does |
| `Growth.Handshake` | tjost.c:210-275 | Over every interleaving at most one request is pending, being served or in the ring, none while the flag is clear; the ring never overflows; rtmem_sum is right except between listing and counting a chunk |
| `Growth.NeverStuck` | tjost.c:210-275 | Some step of the handshake is always possible |
| `Growth.CountsPools` | tjost.c:229-245 | Over every interleaving, for chunks of positive sizes that add up to less than 2^64, rtmem_sum is the memory that has a pool if and only if every chunk listed after the first was accepted |
| `Growth.FailedMapping` | tjost.c:183-245 | A run in which mmap fails: its error address is handed over, listed without a pool and counted, and the flag is cleared |
| `Growth.Served` | tjost.c:210-245 | Every interleaving clears the flag within eight steps, and one more chunk is listed, with a pool if and only if it was accepted |
| `Growth.TakenIn` | tjost.c:229-245 | tjost_add_memory run to its end takes the chunk in, counts it and clears the flag |
| `Scheduler.InsertSorted` | tjost.c:87-97 | A sorted insert keeps the order |
| `Scheduler.InsertAt` | tjost.c:87-97 | An event goes behind all events of its own time |
| `Scheduler.SameQueue` | tjost.c:87-97 | Order and the sequence of events at each time determine a queue: there is only one right insert |
| `Scheduler.ArrivalOrder` | tjost.c:87-97 | A queue keeps the order of arrival if and only if the events arrive in order of time |
| `Scheduler.ArrivalBehind` | tjost.c:87-97 | New events stay behind a sorted queue in their order of arrival if and only if that is the order of time |
| `Scheduler.TiesOnTime` | tjost.c:332-345 | From any sorted queue: events delivered at a time behind the start of the period are those left over and then those that arrived, in order of arrival |
| `Scheduler.DeliveredAtStart` | tjost.c:332-345 | What is delivered at the start of the period are exactly the immediate, late and first-frame events, in queue order |
| `Scheduler.TiesAtStart` | tjost.c:332-345 | From any sorted queue: those left over and those that arrived come in that order if and only if it is the order of the times they asked for |
| `Scheduler.Overtaken` | tjost.c:332-345 | An event left for exactly the start of the period is overtaken by a late one |
| `Scheduler.OnTime` | tjost.c:332-345 | Deliveries are sorted, within the period, and at the time asked for unless that is past; what is left lies behind the period |
| `Scheduler.OwnPayload` | tjost.c:332-345 | What a drain takes are exactly the events before the end of the period, each with its own payload, and it leaves the rest as they were |
| `Scheduler.DueUnlessWrapped` | tjost.c:332-345 | In a sorted queue, for every frame of the period, an event with the 32-bit stamp of that frame goes out at that frame if and only if the frame count does not wrap within the period |
| `Scheduler.WrappedStamp` | tjost.c:332-345 | In a period that wraps, events stamped before the wrap stay in the queue and those stamped behind it go out at the start of the period |
| `Scheduler.TwoFramesEarly` | tjost.c:332-345 | An event that goes out two frames early in a period of three frames |
| `Scheduler.ExactlyOnce` | tjost.c:332-379 | Over any contiguous periods, the copies of an event that a period takes are all those scheduled so far if its time is in the period, none if it is later, and only those scheduled in this period if it is earlier or immediate |
| `Scheduler.InOrder` | tjost.c:332-379 | The same time by time and in order: what a period takes at a time is the sequence of all events of that time so far, in order of arrival |
| `Scheduler.DispatchedAt` | tjost.c:332-379 | Over any contiguous periods, what a period sends on behind its start are all events of that time so far in order of arrival, at its start the early events of its queue, and nothing outside it |
| `Scheduler.OnceInPeriodInOrder` | tjost.c:332-379 | Once per child, in its period, in order: a module that is a child once is handed in each period of a run exactly the events of the sources it is a child of, of that time, whenever they were scheduled, each once and in order of arrival |
| `Scheduler.RunPeriods` | tjost.c:308-384 | Periods of scheduling, drain and output by every output module, one after another: what each module puts out in each period is its inbox of that period |
| `Scheduler.Host.Schedule` | tjost.c:99-123 | A sorted host queue stays sorted, gains just the event, and has it behind those of its own time; events of other times keep their order |
| `Scheduler.Module.Schedule` | tjost.c:125-136 | The same for the queue of a module |
| `Scheduler.Module.Drain` | modules/mod_loopback.c:27-50 | The drain loop of an output module takes the due events at their clamped times and leaves the others |
| `Scheduler.Host.Dispatch` | tjost.c:332-379 | The due events leave the queue, and every module's queue gets, in order, one copy per time it is a child of the source, or of the uplinks for a broadcast |
| `Scheduler.Host.Deliver` | tjost.c:347-375 | Every module gets an event as many times as it occurs among the children of its source, or among those of all uplinks for a broadcast |
| `Scheduler.BroadcastSum` | tjost.c:347-357 | The copies of a broadcast add up over any division of the uplinks, and for one uplink are as many as the module occurs among its children |
| `Scheduler.OncePerChild` | tjost.c:347-375 | A module that is once a child of the source, or of the uplinks for a broadcast, gets every event of such a source exactly once, and no other event |
| `Scheduler.LoopbackOut` | modules/mod_loopback.c:22-52 | The events of the module before the end of the period leave its queue; each goes to the host's queue with its own payload at its looped time, behind what the host has for that time and in queue order |
| `Scheduler.LoopedExact` | modules/mod_loopback.c:22-50 | The looped events are one for every event before the end of the period, with its own payload, at the time asked for plus frames, at last + frames for an immediate one, and at last + 2 * frames for a late one |
| `Scheduler.LoopedLater` | modules/mod_loopback.c:33-49 | Nothing is scheduled into the current period; an event comes back with its payload frames later, but a late one, not immediate, comes back at last + 2 * frames |
| `Scheduler.LoopedTwice` | modules/mod_loopback.c:33-49 | A late event that comes back two periods later |
| `Cv.CvIn.ProcessIn` | modules/mod_cv_in.c:35-63 | The host's queue gets one event for every sample that differs from the value held before it |
| `Cv.ChangesExactly` | modules/mod_cv_in.c:48-60 | There is exactly one event at every sample that is not the same as the sample before it, or where either is not a number, and none elsewhere |
| `Cv.CvOut.Event` | modules/mod_cv_out.c:35-53 | The held value fills the buffer up to the event and nothing else |
| `Cv.CvOut.ProcessOut` | modules/mod_cv_out.c:60-101 | From any sorted queue, with or without wrap-around: every sample gets the value of the last event at or before it, every write is inside the buffer, and the last value is held |
| `Cv.OutputIsInput` | modules/mod_cv_in.c:48-60 | A sample comes out as it went in if and only if it is not a zero that follows a held zero of the other sign |
| `Cv.SignLost` | modules/mod_cv_in.c:48-60 | A negative zero behind a positive one comes out positive |
| `Cv.RoundTrip` | tjost.c:327-388 | In a period without wrap-around, encoding, two sorted inserts, two drains and rendering are the identity up to the sign of zeros |
| `Cv.WrappedPeriod` | tjost.c:327-388 | In a period in which the 32-bit frame count wraps, the decoder drains nothing and puts out the value it held |
| `Cv.PeriodExact` | tjost.c:327-388 | The buffer that encoder, two queues, two drains and decoder put out for a period is its input up to the sign of zeros if and only if the frame count does not wrap or every sample is the value held before |
| `Cv.WrappedWitness` | tjost.c:327-388 | A period of two frames that is not reproduced |
| `Cv.ProcessPeriod` | tjost.c:327-388 | One period of a cv_in with a cv_out as its only child: without wrap-around output as above, queues empty, equal held values; with it the held value throughout; reproduced exactly under the condition of PeriodExact |
| `Cv.ProcessRun` | tjost.c:327-388 | Any number of periods of any lengths in which the frame count does not wrap: all samples come out as they went in, and the held values agree at every boundary |
| `Pipe.HeaderRoundTrip` | tjost_pipe.c:57-60 | Reading the 48-byte event structure back gives source, time and size, whatever the uninitialised bytes are |
| `Pipe.FirstFrame` | tjost_pipe.c:91-103 | A stream that starts with a header and its payload starts with the first frame |
| `Pipe.Admission` | tjost_pipe.c:62-63 | A frame is let in if and only if header and payload fit the free space; otherwise it leaves no byte |
| `Pipe.ProducerKeeps` | tjost_pipe.c:65-70 | Whatever the consumer does meanwhile, both writes are complete |
| `Pipe.DeliveryKeeps` | tjost_pipe.c:96-106 | What is delivered is the next accepted frame |
| `Pipe.Safety` | tjost_pipe.c:54-110 | Under every interleaving of the pieces of both threads: delivered frames are a prefix of the accepted ones, no write or read is short, the ring does not overflow, and with both at rest it holds whole frames |
| `Pipe.PipeProduce` | tjost_pipe.c:54-73 | Returns 0 and appends the frame if it fits, -1 with the ring unchanged if not |
| `Pipe.PipeConsume` | tjost_pipe.c:84-110 | On whole frames and perhaps the beginning of a header it terminates, delivers up to the first callback that asks to stop, and leaves the rest; with whole frames and no such callback the ring ends up empty |
| `Pipe.Waits` | tjost_pipe.c:89-107 | With a whole header in the ring and its payload not yet, a round of the loop changes nothing |
| `Inlist.Append` | inlist/inlist.h:38-63 | The list with the node at its end, and the head knows it; a head without a cached tail is mended |
| `Inlist.Prepend` | inlist/inlist.h:65-83 | The list with the node in front, which takes over the cached tail |
| `Inlist.Remove` | inlist/inlist.h:85-120 | The list without just that node wherever it stands; null and unlinked nodes change nothing |
| `Inlist.Count` | inlist/inlist.h:122-132 | The length, modulo 2^32 |
| `Inlist.ForeachSafe` | inlist/inlist.h:152-155 | Every node is visited once in order although the body may remove it, and the others stay linked in order |
| `Inlist.KeptMembers` | inlist/inlist.h:152-155 | The nodes left are exactly those that were not to be removed |
| `Inlist.ReverseForeach` | inlist/inlist.h:157-159 | The cached tail and the prev links give the exact reverse |

## Left out

- Allocator.Tlsf.Malloc: requires the adjusted size to be at most 2^32 - 2^26, since the code reads past its table otherwise; the same holds for the moving paths of Realloc and for Memalign.
- Allocator.Tlsf.Memalign: requires a request that adjusts to a size, an alignment of at most 8, or that no block is found, which is exactly when the code keeps its invariant (`Limits.MemalignExact`).
- Allocator.Tlsf.Realloc: requires for a live pointer a size below 2^32 or a block below 32 bytes, likewise exact (`Limits.ReallocTooLarge`).
- Allocator.Tlsf.BlockLocateFree: requires a search inside the table.
- Allocator.Tlsf.AddPool: requires the memory of an accepted pool to lie in the modelled array, apart from other pools, and the pool to be below 2^32 bytes.
- Allocator.Tlsf.CheckPool: the walker's calls are collected and then inspected, since nothing changes the pool in between.
- Host.MemoryHost.FreeMemory: requires that nothing is live and that every chunk after the first was accepted, which is exactly when every removal meets the assertions of `tlsf_remove_pool` (`Host.RemovalsSound`).
- Host.MemoryHost.AddMemory: starts after initialisation, when the first chunk is listed.
- Scheduler.ExactlyOnce: is about runs in which the 32-bit frame count does not wrap, as are `Scheduler.InOrder` and `Scheduler.OnceInPeriodInOrder`; `Scheduler.DueUnlessWrapped` and `Scheduler.WrappedStamp` say what a wrap does in one period.
- Scheduler.RunPeriods: periods have at least one frame.
- The children of a module are fixed when it is made, so a graph in which a chain leads back to an earlier module is not built here. An event is handed on by one step at a time, from a source to its children.
- Pipe.PipeConsume: does not start from a whole header whose payload is still being written; there the code waits in its loop, as `Pipe.Waits` and the interleaved model show.
- Cv.ProcessRun: leaves out runs that reach a wrap of the 32-bit frame count, for which `Cv.ProcessPeriod` says what one period does and `Cv.PeriodExact` when it is reproduced, and events of other modules and messages for other paths, which the decoder ignores.
- The control structure is a class with two bitmaps and an array of list heads, not part of the word array; the two words of the null block that are written lie in the array. Addresses are below 2^61 bytes.
- `tlsf_create` with misaligned memory, `tlsf_create_with_pool`, `tlsf_destroy` and the size queries only forward or return constants.
- The 32-bit constants and the compiler-specific bit scans of `tlsfbits.h`.
- Diagnostics: printf, the message ring buffer and its asynchronous send.
- The Lua callbacks of the main loop, which may schedule further events while the queue is drained.
- JACK, libuv and Eina are modelled by what they promise: a ring buffer is a bounded queue of bytes with one byte free, an asynchronous send sets a flag that the loop clears before its callback, a sorted insert follows its comparator. Reading an OSC float back gives the float that was written.
- A null result of `tjost_map_memory_chunk`, for which `tjost_request_memory` has a branch: `mmap` does not return null, and a failing `calloc` is written through before the test.
- The counter `used` is one variable for all threads; the model has the real-time thread alone change it.
- Failure of `tjost_alloc` inside the schedule functions, whose result they do not test.
- `tjost_lua.c`, `tjost_nsm.c`, `tjost_uplink.c` and the modules other than loopback and the two CV modules: device, network and script input and output, or repeats of the same drain loop.
