# A verified model of the CEsvga2 driver core

This project models the memory management and device protocols of the CEsvga2
display driver and proves what they promise for every input and every run.

* **The VRAM buddy allocator** (`AC/CEsvga2Allocator.cpp`). `Heap.dfy`,
  `Cover.dfy`, `HeapOps.dfy` describe the allocator on values: who owns each
  block, and thirteen ordered free lists. `Accounting.dfy`, `Canonical.dfy`,
  `Restore.dfy` and `Runs.dfy` prove what holds over whole runs.
  `PoolMemory.dfy` says how such a heap is laid out in pool words, map bits and
  list heads. `BuddyAllocator.dfy` is the allocator itself, updating arrays in
  place; `ListNodes.dfy`, `SizeClasses.dfy`, `ListCheck.dfy`,
  `AllocatorFrame.dfy` and `AllocatorPlans.dfy` hold its parts, and `Bitmap.dfy`
  the byte map with its range operations. `Dyadic.dfy` has the arithmetic of
  powers of two, `Common.dfy` shared helpers.
* **GMR descriptors** (`GmrChain.dfy`): the descriptor chain of `createGMR`, the
  walk a device makes over it, and the page list of `createGMR2`.
* **IDs and transfer buffers** (`MaskBits.dfy`, `IdPool.dfy`,
  `TransferBuffer.dfy`): ID masks with a search hint, and the
  prepare/sync/complete protocol of many buffers on one provider.
* **Fences** (`Fences.dfy`, `FenceTracker.dfy`): 32-bit fences, the wait for
  one, and the ring that bounds outstanding presents.
* **The command FIFO** (`Fifo.dfy`): reserve, fill and commit on a ring that the
  device reads at the same time; presents and fences are sent through it.

Operations that update state are classes and methods whose contracts equate the
new state with a function of the old one; the theorems are about those
functions and about every sequence of them. The FRAGILE build is modelled, as
the project file defines it (`CEsvga2.xcodeproj/project.pbxproj`, lines 788 and
888).

Some results say that the code does less than its comments, each with the exact
condition:

* `memAll` and `memAny` look only at the count `repe scasb` leaves, so the last
  byte scanned is never reported; the range tests are exact if and only if the
  range holds no whole byte (`TestsExactIff`).
* `BuddyAllocSize` is exact for live pointers, but recognises other addresses too:
  every reserved block, the power-of-two tails of a live chunk, and blocks of a
  free chunk from which an aligned range reaches a marked block beyond it. These
  are all (`ProbeVerdict`, `MistakenIff`), and exactly what `Free` and `Realloc`
  must not be called with (`PointerOkIff`).
* The map test of `Release` accepts any map at all if the range is one whole byte,
  so a second release of eight aligned blocks is never refused
  (`NeverRefusedIff`).
* `Release` does not merge, so canonical form depends on where releases meet
  (`ReleaseCanonical`).
* A descriptor of `createGMR` holds the page count of its segment if and only if
  the count fits 32 bits (`ChainRoundTrip`, `CountWraps`).
* The list of `createGMR2` is overrun if and only if a page or more is wasted
  (`OverrunIff`), and names the right pages if and only if every segment ends
  within the first 2^32 pages (`ListExactIff`, `PageWraps`).
* A command exactly as long as the whole FIFO is accepted but never granted
  (`Fifo.Reserve`).
* The 32-bit fence comparison is wrong half a round later, which `SyncToFence`
  survives (`PassedIff`, `SyncToFence`).

## Model

| member | source | states |
|---|---|---|
| `Runs.RunSettled` | AC/CEsvga2Allocator.cpp:492-766 | After every run of Malloc, Free, Realloc and Release each block is in exactly one free chunk, live chunk or the reserved part; chunks are whole and aligned to their size; every free chunk is on its list exactly once. |
| `Runs.RunKeeps` | AC/CEsvga2Allocator.cpp:521-766 | Over every run of Malloc, Free and Realloc the reserved blocks stay exactly the reserved blocks, and if no two buddies below the top size were free at the start, none ever are. |
| `Runs.RunKeepsLive` | AC/CEsvga2Allocator.cpp:342-766 | A live chunk keeps its address, size and owner over every run in which no call is made on its own address. |
| `Runs.RunConserves` | AC/CEsvga2Allocator.cpp:540-766 | Free, live and reserved blocks add up to the pool after every run. |
| `Runs.RunDrained` | AC/CEsvga2Allocator.cpp:636-766 | From a canonical state with nothing live, any run that ends with nothing live ends with the same partition into free chunks and the same members on every list, whatever the order of the frees. |
| `Runs.StepKeeps` | AC/CEsvga2Allocator.cpp:571-766 | One call keeps the partition, every reserved block, every live chunk but its own target, and canonical form. |
| `Runs.ReleaseStepFrees` | AC/CEsvga2Allocator.cpp:540-569 | Release frees exactly its range: those blocks become free, every other block keeps its owner or stays free, and the free total grows by the length of the range. |
| `Runs.ReallocZeroFrees` | AC/CEsvga2Allocator.cpp:594-595 | Resizing to nothing is freeing, and frees exactly the chunk. |
| `Runs.ReallocStepMeans` | AC/CEsvga2Allocator.cpp:588-634 | Resizing ends with a live chunk of exactly the wanted class at the address handed back and the difference in free blocks, with the old chunk given up if it had to move; or nothing changes, exactly if it has to grow and there is no room. |
| `AllocatorPlans.ResizeStatusMeans` | AC/CEsvga2Allocator.cpp:602-633 | Success is reported if and only if the address handed back leads to a live chunk of the wanted class; otherwise the heap is unchanged. |
| `Runs.SetupEffect` | AC/CEsvga2Accel.cpp:444-469 | The release pattern of start-up ends in canonical form with nothing live; the traceable region is reserved exactly if there is no front buffer. |
| `Runs.TraceableRegionIsSafe` | AC/CEsvga2Accel.cpp:450-469 | Without a front buffer no run of Malloc, Free and Realloc ever hands out or merges a block of the first traceable region. |
| `Runs.ReleaseCanonical` | AC/CEsvga2Allocator.cpp:540-569 | Release, which never merges, keeps canonical form if and only if no piece it cuts is the buddy of a chunk that was already free. |
| `Runs.ReleaseAtBoundary` | AC/CEsvga2Allocator.cpp:540-569 | Releasing between multiples of the largest chunk size always keeps canonical form. |
| `Runs.ReleaseByPiecesNotCanonical` | AC/CEsvga2Allocator.cpp:540-569 | The failing case: two neighbouring blocks released one after the other stay two free buddies. |
| `CanonicalForm.CanonicalUnique` | AC/CEsvga2Allocator.cpp:665-742 | In canonical form the free chunk around a block is determined by the set of free blocks alone. |
| `CanonicalForm.MallocComplete` | AC/CEsvga2Allocator.cpp:348-357 | In canonical form a request can be met if and only if its class is legal and some aligned run of that many blocks is entirely free. |
| `CanonicalForm.MallocRoom` | AC/CEsvga2Allocator.cpp:353-358 | In any state the chunk that is picked starts an aligned, entirely free run of the requested size. |
| `CanonicalForm.MallocCanonical` | AC/CEsvga2Allocator.cpp:342-412 | Splitting a chunk for an allocation leaves no pair of free buddies. |
| `CanonicalForm.FreeCanonical` | AC/CEsvga2Allocator.cpp:636-766 | The merge loop leaves no pair of free buddies. |
| `CanonicalForm.ShrinkCanonical` | AC/CEsvga2Allocator.cpp:612-634 | Shrinking in place leaves no pair of free buddies. |
| `Restore.MallocFreeRestores` | AC/CEsvga2Allocator.cpp:342-412 | Malloc followed by Free of the result restores every list in its order and every owner if and only if the chunk that was split had no free buddy of its own size. |
| `Restore.MallocFreeRoundTrip` | AC/CEsvga2Allocator.cpp:636-766 | In canonical form Malloc followed by Free of the result is the identity on the whole heap, list order included. |
| `BuddyAllocator.MallocAndFree` | AC/CEsvga2Allocator.cpp:571-766 | The same on the arrays: in canonical form Malloc followed by Free brings back every list head, every byte of the map and the byte counter, and no word of a live or reserved block changes. |
| `HeapOps.MallocEffect` | AC/CEsvga2Allocator.cpp:342-412 | The chunk handed out was the front of one free chunk, the rest of it is free again in largest pieces, nothing else changes hands, and the free total drops by exactly the chunk. |
| `HeapOps.FreeEffect` | AC/CEsvga2Allocator.cpp:636-766 | Freeing turns exactly the chunk into free blocks (possibly inside a larger chunk), disturbs no live or reserved block, and raises the free total by exactly the chunk. |
| `HeapOps.ShrinkEffect` | AC/CEsvga2Allocator.cpp:612-634 | Shrinking keeps the front live and frees exactly the tail. |
| `HeapOps.ReleaseEffect` | AC/CEsvga2Allocator.cpp:540-569 | Releasing turns exactly the range from reserved to free. |
| `HeapOps.MergeEffect` | AC/CEsvga2Allocator.cpp:665-742 | Whatever the merge loop swallows was free before: exactly the freed range becomes free, free blocks stay free, every other block keeps its owner, and the free total grows by exactly the range. |
| `Accounting.ListsAddUp` | AC/CEsvga2Allocator.cpp:776-821 | The sizes of the listed chunks add up to the free blocks. |
| `Accounting.ListLengthBound` | AC/CEsvga2Allocator.cpp:785-814 | Pigeonhole: a list of class b never has more than poolBlocks >> b entries, so the cycle guard of Check never trips. |
| `Cover.ToFreeOwners` | AC/CEsvga2Allocator.cpp:275-336 | The range, and nothing else, becomes free, and every chunk in it is the largest that is aligned and fits. |
| `Cover.PlanTiles` | AC/CEsvga2Allocator.cpp:275-336 | The pieces are consecutive, aligned, each the largest that fits, and cover the range exactly. |
| `Cover.PlanPushesToFree` | AC/CEsvga2Allocator.cpp:275-336 | Freeing a range is pushing exactly the pieces of the plan, in order; so what is proved of the plan holds of the code. |
| `Cover.PushAllPieces` | AC/CEsvga2Allocator.cpp:275-336 | Each piece becomes a free chunk, and no other free chunk starts in the range. |
| `Cover.PlanRisesThenFalls` | AC/CEsvga2Allocator.cpp:280-300 | Piece sizes rise and then fall: none is smaller than both an earlier and a later one. |
| `Cover.PlanHasNoBuddies` | AC/CEsvga2Allocator.cpp:275-336 | No two pieces below the top size are buddies. |
| `PoolMemory.LinkRep` | AC/CEsvga2Allocator.cpp:257-268 | Writing header, trailer and back link of a new head turns a layout of the old heap into a layout of the heap with that chunk pushed on its list. |
| `PoolMemory.UnlinkRep` | AC/CEsvga2Allocator.cpp:689-733 | Rewriting the neighbours of an entry turns a layout of the old heap into a layout of the heap without that entry. |
| `PoolMemory.MergeTestSound` | AC/CEsvga2Allocator.cpp:670-685 | If the map bit at the end of the buddy is clear, the word there is the trailer of a real free chunk that ends there and is no larger than the current one; it names the current class if and only if the buddy is one whole listed chunk. If the bit is set the buddy is not listed. |
| `PoolMemory.ProbeLive` | AC/CEsvga2Allocator.cpp:418-445 | For a live pointer the search through the map stops at exactly the size of the chunk. |
| `PoolMemory.ProbeInside` | AC/CEsvga2Allocator.cpp:434-442 | For an address inside a live chunk the search succeeds if and only if an aligned chunk from there to the end of the live one exists, and returns its size. |
| `PoolMemory.ProbeVerdict` | AC/CEsvga2Allocator.cpp:434-442 | For every block of a settled heap, the answer of the search: 0 for a reserved block; inside a live chunk the size of the tail from there to its end, if that is a power of two, and failure otherwise; inside a free chunk the least class at which an aligned range reaches a marked block, which lies beyond the chunk, and failure if and only if there is none. |
| `PoolMemory.MistakenIff` | AC/CEsvga2Allocator.cpp:418-445 | The addresses accepted though no live chunk starts there are exactly the reserved blocks, the power-of-two tails of live chunks, and the blocks of free chunks that reach a marked block. |
| `BuddyAllocator.Allocator.PointerOkIff` | AC/CEsvga2Allocator.cpp:636-646 | What Free and Realloc ask of a pointer is exactly that it is not one of those. |
| `PoolMemory.LayoutUnique` | AC/CEsvga2Allocator.cpp:226-269 | Every list head and every bit of the map, the bits past the end of the pool included, is a function of the abstract heap. |
| `Bitmaps.ClearAll` | AC/CEsvga2Allocator.cpp:147-166 | Clears exactly the bits of the half-open range and no other, for every start and end. |
| `Bitmaps.ScanWhile` | AC/CEsvga2Allocator.cpp:110-111 | The count left by the scan is zero if and only if all bytes but the last match. |
| `Bitmaps.MemAll` | AC/CEsvga2Allocator.cpp:105-112 | True exactly if all bytes except the last are 0xFF (the comment promises the last one too). |
| `Bitmaps.MemAny` | AC/CEsvga2Allocator.cpp:184-191 | True exactly if some byte except the last is non-zero (the comment promises the last one too). |
| `Bitmaps.TestAll` | AC/CEsvga2Allocator.cpp:118-141 | True exactly if all bits of the range outside its last whole byte are set. |
| `Bitmaps.TestAny` | AC/CEsvga2Allocator.cpp:197-220 | True exactly if some bit of the range outside its last whole byte is set. |
| `Bitmaps.TestsExactIff` | AC/CEsvga2Allocator.cpp:101-220 | The tests agree with the bitwise all and any on every map if and only if the range contains no whole byte. |
| `Bitmaps.BlindSpot` | AC/CEsvga2Allocator.cpp:101-220 | For every other range, a map on which the test and the bitwise answer differ. |
| `Bitmaps.NeverRefusedIff` | AC/CEsvga2Allocator.cpp:171-178 | The test passes whatever the bits are if and only if the range is empty or one whole byte. |
| `SizeClasses.SizeClass` | AC/CEsvga2Allocator.cpp:577-584 | The doubling loop finds the smallest class that holds the request, or reports that there is none, with 64-bit wrap of the size modelled. |
| `SizeClasses.FitClass` | AC/CEsvga2Allocator.cpp:613 | The smallest class that holds the new size. |
| `SizeClasses.NextSize` | AC/CEsvga2Allocator.cpp:301-330 | From the size used last, the two loops arrive at the largest aligned size that fits; the exit for a negative size is never taken, and the trips up and down are accounted for. |
| `ListNodes.WriteNode` | AC/CEsvga2Allocator.cpp:257-266 | Exactly the header, trailer and back-link words of a new list head are written, no other word of the pool. |
| `ListNodes.CheckedWriteNode` | AC/CEsvga2Allocator.cpp:746-763 | As WriteNode, in the order of Free; exactly the same words are written, and none of its corruption returns is taken for a laid-out list. |
| `ListNodes.UnlinkFirst` | AC/CEsvga2Allocator.cpp:361-395 | The head of a laid-out list passes every check, and the back link of its successor is the only word that changes. |
| `ListNodes.UnlinkAny` | AC/CEsvga2Allocator.cpp:689-733 | Any entry of a laid-out list passes every check; its neighbours are joined, its header and trailer become zero, and no other word changes. |
| `BuddyAllocator.Allocator.Init` | AC/CEsvga2Allocator.cpp:492-530 | Refuses an unaligned start or a size beyond 32 bits and then changes nothing; otherwise every block is reserved, every list empty and the state valid. |
| `BuddyAllocator.Allocator.Rebase` | AC/CEsvga2Allocator.cpp:532-538 | Moves the pool to another aligned address and keeps the state valid. |
| `BuddyAllocator.Allocator.Release` | AC/CEsvga2Allocator.cpp:540-569 | Succeeds exactly if the arguments are in range and the map test passes; then the new heap is the Release step of the runs (nothing, if the range is reversed), otherwise no word, bit, list or counter changes. |
| `BuddyAllocator.Allocator.MakeFree` | AC/CEsvga2Allocator.cpp:226-269 | Pushes one aligned range on its list, in words, heads and byte counter alike; no word of a live or reserved block is written. |
| `BuddyAllocator.Allocator.ToFree` | AC/CEsvga2Allocator.cpp:275-336 | Frees a range as its specification says, adds exactly its bytes to the counter without overflow, with at most 12 steps up the sizes and 12 down in all. |
| `BuddyAllocator.Allocator.BuddyAllocSize` | AC/CEsvga2Allocator.cpp:418-445 | Returns the class the map shows, or not-aligned exactly if it shows none. |
| `BuddyAllocator.Allocator.BuddyMalloc` | AC/CEsvga2Allocator.cpp:342-412 | No corruption return is reachable in a valid state; allocation succeeds exactly if some list from the class on is non-empty, and no list head outside the table is read. |
| `BuddyAllocator.Allocator.FindList` | AC/CEsvga2Allocator.cpp:353-357 | The first non-empty list from a class on. |
| `BuddyAllocator.Allocator.Malloc` | AC/CEsvga2Allocator.cpp:571-586 | Status, address and new state are those of the abstract heap; a refused request changes no word, bit, list or counter; words of live and reserved blocks are kept. |
| `BuddyAllocator.Allocator.BuddyIsFree` | AC/CEsvga2Allocator.cpp:676-685 | The test never reports corruption, and says yes exactly if the buddy is one whole free chunk of the same size. |
| `BuddyAllocator.Allocator.TryMerge` | AC/CEsvga2Allocator.cpp:665-742 | One round takes the buddy off its list if it is free and leaves the layout intact. |
| `BuddyAllocator.Allocator.MergeAll` | AC/CEsvga2Allocator.cpp:665-742 | The whole loop computes the abstract merge. |
| `BuddyAllocator.Allocator.LinkMerged` | AC/CEsvga2Allocator.cpp:746-763 | The tail of Free puts the merged chunk at the head of its list without reporting corruption. |
| `BuddyAllocator.Allocator.FreeChunk` | AC/CEsvga2Allocator.cpp:647-766 | A live chunk is always freed with success, its bytes are added to the counter, and no word of another live or reserved block is written. |
| `BuddyAllocator.Allocator.Free` | AC/CEsvga2Allocator.cpp:636-766 | Null and unrecognised addresses change nothing; a live address is always freed with success and the state of the abstract heap. |
| `BuddyAllocator.Allocator.ShrinkChunk` | AC/CEsvga2Allocator.cpp:612-634 | Shrinks in place, keeping the words of the part that stays. |
| `BuddyAllocator.Allocator.GrowChunk` | AC/CEsvga2Allocator.cpp:602-611 | Grows by moving: the new chunk starts with the whole old contents, or nothing changes at all if there is no room. |
| `BuddyAllocator.Allocator.Realloc` | AC/CEsvga2Allocator.cpp:588-634 | For every size the new heap is the Realloc step of the runs; status and address for all cases (zero size, null, unrecognised, grow, shrink, same); contents are kept up to the smaller size, failure changes nothing, and no other live chunk is written. |
| `BuddyAllocator.Allocator.Available` | AC/CEsvga2Allocator.cpp:768-774 | Exactly the bytes of the free blocks. |
| `BuddyAllocator.Allocator.CheckList` | AC/CEsvga2Allocator.cpp:784-814 | On any contents that do not lead past the pool, succeeds if and only if the head leads to a list that ends, repeats nothing, is back-linked with matching magic and trailers, and is no longer than the guard allows; that list is unique. |
| `BuddyAllocator.Allocator.Check` | AC/CEsvga2Allocator.cpp:776-821 | On any contents that do not lead past the pool, succeeds if and only if there are thirteen such lists whose bytes equal the counter modulo 2^32, and counts them; every valid state passes. |
| `BuddyAllocator.Allocator.ValidCheckable` | AC/CEsvga2Allocator.cpp:776-821 | In a valid state the walk never leads past the pool. |
| `BuddyAllocator.OverwriteAndCheck` | AC/CEsvga2Allocator.cpp:776-821 | After any one word of a valid pool other than a next link of a list is overwritten, Check stays inside the pool and succeeds if and only if every header and trailer of every free chunk is still in place. |
| `BuddyAllocator.FlipAndCheck` | AC/CEsvga2Allocator.cpp:776-821 | After any one bit of a valid map is flipped, Check succeeds if and only if no test of a free chunk looks at that bit. |
| `ListCheck.DamagedBalanced` | AC/CEsvga2Allocator.cpp:783-819 | After damage to any number of words and map bits that spares the next links, Check can succeed if and only if every header and trailer is in place and the map shows no live block, where it is looked at, in a free chunk. |
| `ListCheck.BackLinksDiffer` | AC/CEsvga2Allocator.cpp:785-814 | Consistent back links rule out an entry met twice. |
| `BuddyAllocator.SetupAllocator` | AC/CEsvga2Accel.cpp:437-475 | Start-up never fails after Init succeeded, and ends in the state that SetupEffect describes. |
| `GmrChain.CountRanges` | AC/CEsvga2Accel.cpp:2159-2166 | Counts all segments, and refuses exactly if one lies beyond 44 bits. |
| `GmrChain.TooHighIff` | AC/CEsvga2Accel.cpp:2146-2163 | The address test refuses exactly the page numbers that do not fit 32 bits. |
| `GmrChain.PageOfSegmentIff` | AC/CEsvga2Accel.cpp:2194-2198 | The pages counted for a segment, at any offset in its first page, are exactly those that hold a byte of it. |
| `GmrChain.RangePagesIff` | AC/CEsvga2Accel.cpp:2255-2267 | The pages listed for a segment are exactly those. |
| `GmrChain.FillChain` | AC/CEsvga2Accel.cpp:2183-2215 | For any number of segments and any fragmentation of the helper, every slot of the helper holds what the layout asks for, and no write leaves it. |
| `GmrChain.ChainRoundTrip` | AC/CEsvga2Accel.cpp:2159-2215 | For segments that pass the 44-bit test, walking the chain by physical page numbers yields exactly the page ranges of the segments, untruncated and in order, if and only if every page count fits 32 bits. |
| `GmrChain.CreateGMR` | AC/CEsvga2Accel.cpp:2140-2222 | Status for every input, and the chain given to the device decodes to the true page ranges under the same exact condition. |
| `GmrChain.CountWraps` | AC/CEsvga2Accel.cpp:2195-2198 | The failing case: a segment of 2^32 + 1 pages is described as one page. |
| `GmrChain.CreateGMR2` | AC/CEsvga2Accel.cpp:2225-2268 | Status for every input, an overrun of the list included; otherwise the list has exactly the allocated length and holds the true page numbers cut to 32 bits, which are the true ones if and only if every segment ends within the first 2^32 pages. |
| `GmrChain.FillPages` | AC/CEsvga2Accel.cpp:2253-2268 | The loop overruns its list, refuses a segment beyond 44 bits, or fills the list with the true page numbers cut to 32 bits, whichever comes first. |
| `GmrChain.OverrunIff` | AC/CEsvga2Accel.cpp:2239-2268 | With all segments below 2^44 the list is overrun if and only if a page or more is wasted at segment ends. |
| `GmrChain.ListExactIff` | AC/CEsvga2Accel.cpp:2255-2267 | The 32-bit list equals the true page numbers if and only if the first page plus the page count of every segment is at most 2^32. |
| `GmrChain.PageWraps` | AC/CEsvga2Accel.cpp:2255-2267 | The failing case: an accepted two-page segment whose second page is listed as page 0. |
| `GmrChain.EncodingsAgreeIff` | AC/CEsvga2Accel.cpp:2193-2268 | Expanding the descriptors of createGMR gives the list of createGMR2 if and only if every page count fits 32 bits. |
| `GmrChain.ListFitsIff` | AC/CEsvga2Accel.cpp:2239-2249 | The allocated list is never too long, and long enough if and only if less than a page is wasted at segment ends. |
| `GmrChain.AlignedWastesNothing` | AC/CEsvga2Accel.cpp:2239 | Page-aligned segments meet that condition. |
| `GmrChain.ListCanOverflow` | AC/CEsvga2Accel.cpp:2239-2268 | The failing case: two half pages in different places need two entries and get one. |
| `MaskBits.Log2_32` | AC/CEsvga2Accel.cpp:73-85 | The position of the highest one bit, -1 for zero. |
| `MaskBits.Log2_64` | AC/CEsvga2Accel.cpp:87-95 | The position of the highest one bit, -1 for zero. |
| `MaskBits.IsolateIsLowestZero` | AC/CEsvga2Accel.cpp:128-133 | The word with the zero isolated has exactly one bit, at the lowest zero of the mask. |
| `IdPool.FindBit` | AC/CEsvga2Accel.cpp:121-137 | Finds and sets the lowest clear bit of the words given, or reports that there is none and changes nothing. |
| `IdPool.MaskArray` | AC/CEsvga2Accel.cpp:139-158 | Sets exactly the bits of the half-open range, for every start and end, also across words and with start past end. |
| `IdPool.Pool.AllocManaged` | AC/CEsvga2Accel.cpp:1966-1975 | The search from the hint finds the smallest free ID of the whole mask, and the words below the new hint are full. |
| `IdPool.Pool.AllocSurfaceID` | AC/CEsvga2Accel.cpp:1961-1978 | The smallest free managed ID, or the next counter value when the mask is full. |
| `IdPool.Pool.AllocGMRID` | AC/CEsvga2Accel.cpp:2040-2056 | The smallest free ID, or -1 with nothing changed when the mask is full. |
| `IdPool.Pool.FreeID` | AC/CEsvga2Accel.cpp:1981-1993 | Removes exactly that ID and keeps the hint sound; IDs beyond the mask change nothing. |
| `IdPool.Pool.Reserve` | AC/CEsvga2Accel.cpp:601 | Marks exactly the IDs from the device limit on. |
| `IdPool.AllocFresh` | AC/CEsvga2Accel.cpp:1961-1978 | An ID that is handed out before the counter wraps is held by nobody. |
| `IdPool.RunFresh` | AC/CEsvga2Accel.cpp:1961-1993 | Over every run of allocations and frees too short to wrap the counter, live IDs are pairwise distinct. |
| `IdPool.FreshUntilWrap` | AC/CEsvga2Accel.cpp:1969 | With everything handed out still held, the next ID is fresh if and only if the 32-bit counter has not wrapped. |
| `TransferBuffers.TransferBuffer.Prepare` | AC/VendorTransferBuffer.cpp:50-81 | Every path, clean-up included, has the effect of the value-level step, and success is reported exactly if the buffer ends up with an ID; without a provider nothing changes. |
| `TransferBuffers.PrepareMeans` | AC/VendorTransferBuffer.cpp:50-81 | Which status is reported when, for every cause; success exactly if the buffer had an ID, or has memory, a free ID exists, and wiring and createGMR succeed; the new ID was free and is defined for the memory of the buffer. |
| `TransferBuffers.TransferBuffer.Describe` | AC/VendorTransferBuffer.cpp:67-80 | Wiring and describing the memory, with the clean-up of either failure. |
| `TransferBuffers.TransferBuffer.Sync` | AC/VendorTransferBuffer.cpp:84-90 | Waits for the fence if there is one, and leaves none behind. |
| `TransferBuffers.TransferBuffer.Complete` | AC/VendorTransferBuffer.cpp:93-103 | Syncs, destroys the GMR, unwires the memory and returns the ID, or only syncs if no GMR is held; neither fence nor ID is left behind. |
| `TransferBuffers.SyncMeans` | AC/VendorTransferBuffer.cpp:84-103 | After a sync the buffer has no fence, exactly what its fence guarded is no longer in flight, and nothing else has changed; after a complete it has no ID either. |
| `TransferBuffers.TransferBuffer.Discard` | AC/VendorTransferBuffer.cpp:106-112 | Drops the memory descriptor and nothing else. |
| `TransferBuffers.RunSafe` | AC/VendorTransferBuffer.cpp:44-112 | Over every run of any number of buffers on one provider that does not discard a prepared one: no two hold the same GMR ID, every held ID is below the device limit and defined for the memory of its buffer, exactly that memory is wired, nothing is taken without a holder, and no GMR is destroyed under a transfer. |
| `TransferBuffers.StepSafe` | AC/VendorTransferBuffer.cpp:44-112 | One call of the protocol keeps all of that. |
| `TransferBuffers.SafeComplete` | AC/VendorTransferBuffer.cpp:93-103 | Because it syncs first, complete never destroys a GMR a transfer may still use. |
| `TransferBuffers.InitialSafe` | AC/CEsvga2Accel.cpp:601 | The protocol starts in such a state. |
| `TransferBuffers.RunDrained` | AC/VendorTransferBuffer.cpp:44-112 | When every buffer has been completed the device is exactly as at start-up. |
| `TransferBuffers.FailedPrepareLeavesNoTrace` | AC/VendorTransferBuffer.cpp:66-80 | A prepare that fails leaves IDs, definitions and wired memory as they were. |
| `TransferBuffers.PrepareThenComplete` | AC/VendorTransferBuffer.cpp:50-103 | Complete after a successful prepare comes to a sync and no more. |
| `TransferBuffers.DiscardLeaksIffPrepared` | AC/VendorTransferBuffer.cpp:93-112 | Discarding a buffer and then completing it leaves memory wired if and only if the buffer was prepared. |
| `Fences.FenceCounter.Insert` | FB/SVGADevice.cpp:469-486 | The t-th fence has the 32-bit value that skips zero at the wrap, and its command is sent whole as soon as the device has made room for it; it is refused, with fence 0, if and only if another command is half written or the FIFO is shorter than two words. |
| `Fences.PassedIff` | FB/SVGADevice.cpp:54 | For any two fences, however far apart, the signed comparison is the sign of their distance modulo 2^32 with each wrap of the counter counted once. |
| `Fences.PassedExact` | FB/SVGADevice.cpp:54 | Within half a round the comparison tells whether the fence has passed, across the wrap. |
| `Fences.StaleFence` | FB/SVGADevice.cpp:54 | The failing case: half a round later a fence that passed reads as one that has not. |
| `Fences.SyncToFence` | FB/SVGADevice.cpp:497-518 | With fewer than half a round of fences in flight, the wait ends only when the fence has passed, however old it is, and at the first look that shows it or, without the capability, the first that shows an idle device; it ends once the device stays idle; the complaint is logged exactly if the last look reads as not passed, which happens only to fences passed long ago. |
| `FenceTrackers.FenceTracker.Init` | AC/FenceTracker.h:30-34 | An empty history. |
| `FenceTrackers.FenceTracker.Before` | AC/FenceTracker.h:36-39 | The fence passed to `after` N calls earlier, 0 if there were fewer. |
| `FenceTrackers.FenceTracker.After` | AC/FenceTracker.h:41-47 | Appends to the history, of which the ring keeps the last N. |
| `FenceTrackers.RunBounded` | AC/CEsvga2Accel.cpp:1223-1241 | Over every run of presents, failed ones included, interleaved with progress of the device and fences of other commands, at most N presents are outstanding. |
| `FenceTrackers.StepBounded` | AC/CEsvga2Accel.cpp:1223-1241 | The wait at the start of a present leaves fewer than N outstanding. |
| `FenceTrackers.BurstReachesBound` | AC/CEsvga2Accel.cpp:1223-1241 | The bound is reached. |
| `FenceTrackers.OutstandingAreLast` | AC/CEsvga2Accel.cpp:1223-1241 | With in-order completion at most n presents are outstanding if and only if the present before the last n has passed. |
| `FenceTrackers.Presenter.PresentAutoSync` | AC/CEsvga2Accel.cpp:1208-1244 | One call is one step of that protocol: the fence read from the ring is waited for, and the present command followed by its fence goes out whole, unless it is too long for the FIFO, and exactly then not at all; the first N presents wait for no fence, and none waits for room that is there. |
| `FenceTrackers.PresentRoundTrip` | AC/SVGA3D.cpp:65-76 | A reader of the stream gets back the present identifier, the surface and the rectangles, and then whatever follows, for any present the FIFO can take. |
| `FenceTrackers.Presenter.AwaitTurn` | AC/CEsvga2Accel.cpp:1224 | The wait ends with the present N calls back finished, at once if there is none or the first look shows it finished. |
| `FenceTrackers.Presenter.SendPresent` | AC/CEsvga2Accel.cpp:1225-1239 | The command and its fence are sent and the fence remembered, unless the command is too long for the FIFO, and exactly then nothing is sent; it waits for room only if there is too little. |
| `Fifos.Fifo.constructor` | FB/SVGADevice.cpp:296-327 | The ring starts empty. |
| `Fifos.Fifo.DeviceReads` | FB/SVGADevice.cpp:352-353 | Whenever the device reads, it gets the oldest words in the ring; the reservation and its contents stay. |
| `Fifos.Fifo.Look` | FB/SVGADevice.cpp:353-371 | One look finds room if and only if more words are free than asked for, and in one piece when it says so. |
| `Fifos.Fifo.Reserve` | FB/SVGADevice.cpp:329-388 | Refuses exactly the oversized, unaligned and nested requests; a grant leaves room that overlaps nothing unread; the other requests are granted if and only if what is free and what the device reads meanwhile exceeds them, so one as long as the whole ring never is. |
| `Fifos.Fifo.Write` | FB/SVGADevice.cpp:372-386 | Filling the reserved space changes nothing the device has yet to read. |
| `Fifos.Fifo.CopyWrapped` | FB/SVGADevice.cpp:431-436 | The copy in two pieces puts every word where the ring expects it. |
| `Fifos.Fifo.CommitWords` | FB/SVGADevice.cpp:438-446 | Publishing word by word, with the device reading in between, sends exactly the draft in order. |
| `Fifos.Fifo.Commit` | FB/SVGADevice.cpp:411-457 | What the device reads is what was sent: the committed words follow everything sent before, through all of the four paths; stray commits change nothing. |
| `Fifos.Fifo.CommitAll` | FB/SVGADevice.cpp:459-463 | The whole draft is sent. |
| `Fifos.Fifo.Send` | FB/SVGADevice.cpp:479-485 | Reserve, fill and commit send a command whole or not at all; it is refused if and only if another one is half written or it is too long, and otherwise sent if and only if the device makes room in time. |
| `Fifos.RingAppend` | FB/SVGADevice.cpp:449-454 | Words laid behind the write position join the ring in order when the position moves over them, across the wrap. |
| `Fifos.RingTake` | FB/SVGADevice.cpp:353-371 | Moving the read position drops words from the front. |
| `Fifos.RingSame` | FB/SVGADevice.cpp:372-386 | Writes between the write and the read position do not change the ring. |

## Left out

- BuddyAllocator.Allocator.Init: a failed IOMalloc of the map is not modelled, and block size and number of sizes are the 12 and 13 that the code fixes.
- BuddyAllocator.Allocator.Release: asks that a range the map test accepts was never released; live one-block chunks look the same in the map, and the last whole byte of the range is not looked at (NeverRefusedIff).
- BuddyAllocator.Allocator.Free: not modelled for the addresses the map mistakes for a live chunk, given by MistakenIff; the code then frees blocks that are not the caller's.
- BuddyAllocator.Allocator.Realloc: as Free; null out-pointers are not modelled, here and in Malloc and Available.
- BuddyAllocator.Allocator.Check: not modelled for contents that lead the walk to an entry whose chunk would end past the pool, where the code reads memory that is not the pool's.
- BuddyAllocator.Allocator.CheckList: as Check.
- BuddyAllocator.SetupAllocator: the mapping of video memory is a parameter, and its failure is not modelled.
- GmrChain.CreateGMR: helper pages are non-zero, distinct page numbers; failure to get or prepare the helper is not modelled.
- GmrChain.CreateGMR2: failed allocation and the calls that define the region are not modelled.
- TransferBuffers.TransferBuffer.Prepare: whether wiring the memory and createGMR succeed are parameters.
- FenceTrackers.Presenter.PresentAutoSync: the words of the rectangles are a parameter; while a call waits for room its command may be sent without its fence.
- Fences.SyncToFence: the device is a finite list of looks, with fewer than half a round of fences in flight; if the looks run out the call counts as still waiting.
- Fifos.Fifo.Reserve: positions are counted in words, the FIFO size is taken to be a multiple of four bytes, and the doorbell is left out; what the device has read before each look is a parameter.
- Fifos.Fifo.Commit: asks that no more is committed than was reserved, which the code does not check.
- The non-FRAGILE build with its zero-fill checks.
- Contexts and streams: their ID masks are the one-word case of the same code.
- SVGA3D and SVGAScreen commands: each fills a structure between reserve and commit.
- Blits, fills and regions, master-surface counting, IOKit start and stop, user clients and properties.
- Locks: sections under the accelerator or device lock are single steps.
