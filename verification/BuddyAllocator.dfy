/** The allocator as the driver runs it: an array of words for the pool, a
    byte array for the map, the list heads and a byte counter, updated in
    place.  `heap` is the abstract state they stand for. */
module BuddyAllocator {
  import opened Common
  import opened Dyadic
  import opened Heaps
  import opened Accounting
  import C = Cover
  import opened HeapOps
  import opened CanonicalForm
  import opened Runs
  import opened Bitmaps
  import opened PoolMemory
  import opened AllocatorFrame
  import opened SizeClasses
  import opened ListNodes
  import opened ListCheck
  import opened AllocatorPlans

  /** What toFree was asked to do and the state it started from. */
  datatype Job = Job(first: nat, past: nat, goal: Heap, words: seq<Word>, owner: seq<Owner>, bytes: int)

  datatype FreeJob = FreeJob(goal: Heap, words: seq<Word>, owner: seq<Owner>)

  class Allocator {
    var poolStart: nat            // address of the first byte of the pool
    var poolBlocks: nat
    var pool: array<Word>         // the memory at poolStart
    var bitmap: array<bv8>
    const freeList: array<Word>
    var freeBytes: Word
    ghost var heap: Heap

    // ----- Invariants -----

    /** The arrays lay out `heap`; holds at every step of an operation. */
    ghost predicate Core()
      reads `poolBlocks, `pool, `bitmap, `heap, pool, bitmap, freeList
    {
      && pool != freeList && bitmap as object != pool && bitmap as object != freeList
      && freeList.Length == NUM_SIZES == |heap.lists|
      && poolBlocks == |heap.owner| <= 8 * bitmap.Length
      && pool.Length == 1024 * poolBlocks < 0x4000_0000
      && Inv(heap)
      && Rep(pool[..], bitmap[..], freeList[..], heap)
    }

    /** Between calls nothing is in limbo and the byte counter is right. */
    ghost predicate Valid()
      reads this, pool, bitmap, freeList
    {
      && Core()
      && Settled(heap)
      && freeBytes == Bytes(FreeBlocks(heap))
    }

    // ----- Start-up -----

    constructor ()
      ensures freeList.Length == NUM_SIZES && fresh(freeList)
    {
      freeList := new Word[NUM_SIZES];
      pool := new Word[0];
      bitmap := new bv8[0];
      poolStart, poolBlocks, freeBytes := 0, 0, 0;
      heap := InitHeap(0, NUM_SIZES);
    }

    /** Takes over `bytes` bytes of memory, all of them reserved at first (Init). */
    method Init(startAddress: nat, bytes: nat, memory: array<Word>) returns (status: Status)
      requires freeList.Length == NUM_SIZES && memory != freeList
      requires memory.Length == 1024 * (bytes / 4096)
      modifies this, freeList
      ensures status == if startAddress % 4096 != 0 || bytes >= 0x1_0000_0000 then BadArgument else Success
      ensures status == Success ==>
                && Valid() && heap == InitHeap(bytes / 4096, NUM_SIZES)
                && pool == memory && fresh(bitmap) && poolStart == startAddress
      ensures status != Success ==> unchanged(this) && unchanged(freeList)
    {
      if startAddress % 4096 != 0 { return BadArgument; }
      if bytes >= 0x1_0000_0000 { return BadArgument; }
      poolStart, poolBlocks, pool, freeBytes := startAddress, bytes / 4096, memory, 0;
      bitmap := new bv8[(bytes / 4096 + 7) / 8](_ => 0xFF);
      forall i | 0 <= i < NUM_SIZES { freeList[i] := OURNULL; }
      heap := InitHeap(bytes / 4096, NUM_SIZES);
      InitRep(pool[..], bitmap[..], freeList[..], bytes / 4096);
      status := Success;
    }

    /** The same pool seen at another address (Rebase). */
    method Rebase(newStartAddress: nat) returns (status: Status)
      requires Valid()
      modifies `poolStart
      ensures Valid()
      ensures status == if newStartAddress % 4096 != 0 then BadArgument else Success
      ensures poolStart == if status == Success then newStartAddress else old(poolStart)
    {
      if newStartAddress % 4096 != 0 { return BadArgument; }
      poolStart := newStartAddress;
      status := Success;
    }

    /** Whether a release of startBlock .. pastBlock is in bounds. */
    predicate ReleaseArgs(startOffset: nat, endOffset: nat)
      reads this
    {
      && startOffset % 4096 == 0 && endOffset % 4096 == 0
      && startOffset / 4096 < poolBlocks && endOffset / 4096 <= poolBlocks
    }

    /** Hands a never-released range to the allocator (Release). */
    method Release(startOffset: nat, endOffset: nat) returns (status: Status)
      requires Valid()
      requires ReleaseArgs(startOffset, endOffset) && startOffset < endOffset ==>
                 || AllOwned(heap, startOffset / 4096, endOffset / 4096, Reserved)
                 || !AllLooked(bitmap[..], startOffset / 4096, endOffset / 4096, true)
      modifies this`freeBytes, this`heap, pool, bitmap, freeList
      ensures Valid()
      ensures status == if !ReleaseArgs(startOffset, endOffset) then BadArgument
                        else if old(AllLooked(bitmap[..], startOffset / 4096, endOffset / 4096, true)) then Success
                        else BadMedia
      ensures status != Success ==>
                heap == old(heap) && Untouched(old(pool[..]), old(bitmap[..]), old(freeList[..]), old(freeBytes))
      ensures status == Success ==>
                && (startOffset <= endOffset ==> old(Legal(heap, Call.Release(startOffset / 4096, endOffset / 4096))))
                && heap == (if startOffset <= endOffset then
                              Step(old(heap), Call.Release(startOffset / 4096, endOffset / 4096))
                            else old(heap))
                && Keeps(old(pool[..]), pool[..], Paint(old(heap.owner), startOffset / 4096, endOffset / 4096, Limbo))
    {
      hide Core, Settled, FreeBlocks, Keeps, AllOwned, ReleaseHeap, Paint, AllLooked, Cleared, C.ToFree, Legal, Step;
      if startOffset % 4096 != 0 { return BadArgument; }
      if endOffset % 4096 != 0 { return BadArgument; }
      var startBlock, pastBlock := startOffset / 4096, endOffset / 4096;
      if startBlock >= poolBlocks || pastBlock > poolBlocks { return BadArgument; }
      Sizes();
      var all := TestAll(bitmap, startBlock, pastBlock);
      if !all { return BadMedia; }
      ghost var h, words, owner := heap, pool[..], Paint(heap.owner, startBlock, pastBlock, Limbo);
      ReleasePlan(h, startBlock, pastBlock);
      KeepsSelf(words, owner);
      ClearRange(startBlock, pastBlock);
      ghost var ups, downs := ToFree(startBlock, pastBlock);
      status := Success;
    }

    /** A reserved range always passes the test that Release makes. */
    lemma ReservedLooked(lo: nat, hi: nat)
      requires Core() && (lo < hi ==> AllOwned(heap, lo, hi, Reserved))
      ensures AllLooked(bitmap[..], lo, hi, true)
    {
      hide BitAt;
    }

    /** Clears the map bits of a reserved range, leaving it in limbo. */
    method ClearRange(startBlock: nat, pastBlock: nat)
      requires Core() && pastBlock <= poolBlocks
      requires startBlock < pastBlock ==> AllOwned(heap, startBlock, pastBlock, Reserved)
      modifies this`heap, bitmap
      ensures Core() && heap == SetOwner(old(heap), startBlock, pastBlock, Limbo)
    {
      ghost var words, bytes, heads := pool[..], bitmap[..], freeList[..];
      ClearAll(bitmap, startBlock, pastBlock);
      ClearedRep(words, bytes, bitmap[..], heads, heap, startBlock, pastBlock);
      heap := SetOwner(heap, startBlock, pastBlock, Limbo);
      assert pool[..] == words && freeList[..] == heads;
    }

    // ----- Free lists -----

    /** Adds one aligned range to the head of its free list (makeFree). */
    method MakeFree(firstFree: nat, bitsFree: nat)
      requires Core() && bitsFree < NUM_SIZES && Aligned(firstFree, bitsFree)
      requires AllOwned(heap, firstFree, firstFree + Pow2(bitsFree), Limbo)
      requires freeBytes + Bytes(Pow2(bitsFree)) < 0x1_0000_0000
      modifies this`freeBytes, this`heap, pool, freeList
      ensures Core() && heap == Push(old(heap), firstFree, bitsFree)
      ensures freeBytes == old(freeBytes) + Bytes(Pow2(bitsFree))
      ensures Keeps(old(pool[..]), pool[..], old(heap.owner))
    {
      hide Inv, Rep, Pow2, Linked, Aligned;
      ghost var before, bytes, heads: seq<Word> := pool[..], bitmap[..], freeList[..];
      var next := freeList[bitsFree];
      HeadFacts(bitsFree);
      WriteNode(pool, firstFree, bitsFree, next);
      freeList[bitsFree] := firstFree;
      freeBytes := freeBytes + Bytes(Pow2(bitsFree));
      LinkRep(before, pool[..], bytes, heads, heap, firstFree, bitsFree);
      PushInv(heap, firstFree, bitsFree);
      LinkKeeps(before, pool[..], heap, firstFree, bitsFree);
      assert freeList[..] == heads[bitsFree := firstFree] && bitmap[..] == bytes;
      heap := Push(heap, firstFree, bitsFree);
    }

    /** toFree has dealt with job.first .. i, the last chunk was of class tryBits,
        and the inner loops have made so many steps up and down the sizes. */
    ghost predicate Cutting(job: Job, i: nat, tryBits: nat, tryLen: nat, ups: nat, downs: nat)
      reads this, pool, bitmap, freeList
    {
      && Core() && job.first <= i <= job.past && AllOwned(heap, i, job.past, Limbo)
      && C.ToFree(heap, i, job.past) == job.goal
      && freeBytes == job.bytes + Bytes(i - job.first)
      && Keeps(job.words, pool[..], job.owner) && StillInUse(job.owner, heap.owner)
      && tryBits < NUM_SIZES && tryLen == Pow2(tryBits) && Aligned(i, tryBits)
      && ups - downs == tryBits && ups <= NUM_SIZES - 1
      && (downs > 0 ==> job.past - i < tryLen)
    }

    /** One round of toFree: cuts the largest chunk that fits at i. */
    method CutNext(ghost job: Job, i: nat, past: nat, oldBits: nat, oldLen: nat, ghost oldUps: nat, ghost oldDowns: nat)
      returns (tryBits: nat, tryLen: nat, ghost ups: nat, ghost downs: nat)
      requires Cutting(job, i, oldBits, oldLen, oldUps, oldDowns) && i < past == job.past
      requires job.bytes + Bytes(job.past - job.first) < 0x1_0000_0000
      modifies this`freeBytes, this`heap, pool, freeList
      ensures tryLen >= 1 && Cutting(job, i + tryLen, tryBits, tryLen, ups, downs)
    {
      hide Inv, Rep, Pow2, Aligned, C.ToFree, C.Fit, Keeps, StillInUse, Push, AllOwned;
      ghost var stepsUp, stepsDown;
      tryBits, tryLen, stepsUp, stepsDown := NextSize(i, past, oldBits, oldLen);
      ups, downs := oldUps + stepsUp, oldDowns + stepsDown;
      StepBound(i, past, oldBits, tryBits);
      CutOne(heap, i, past);
      MakeFree(i, tryBits);
      KeepsTrans(job.words, old(pool[..]), pool[..], job.owner, old(heap.owner));
      StillInUseTrans(job.owner, old(heap.owner), heap.owner);
    }

    lemma CuttingDone(job: Job, i: nat, tryBits: nat, tryLen: nat, ups: nat, downs: nat)
      requires Cutting(job, i, tryBits, tryLen, ups, downs) && i >= job.past
      ensures Core() && heap == job.goal && freeBytes == job.bytes + Bytes(job.past - job.first)
      ensures Keeps(job.words, pool[..], job.owner) && ups <= NUM_SIZES - 1 && downs <= NUM_SIZES - 1
    {
    }

    /** Frees an arbitrary range of blocks (toFree): the largest chunk that fits
        at each point, with one trip up the sizes and one trip down in all. */
    method ToFree(firstBlock: nat, pastBlock: nat) returns (ghost ups: nat, ghost downs: nat)
      requires Core()
      requires firstBlock < pastBlock ==>
                 && AllOwned(heap, firstBlock, pastBlock, Limbo)
                 && freeBytes + Bytes(pastBlock - firstBlock) < 0x1_0000_0000
      modifies this`freeBytes, this`heap, pool, freeList
      ensures Core() && heap == C.ToFree(old(heap), firstBlock, pastBlock)
      ensures freeBytes == old(freeBytes) + if firstBlock < pastBlock then Bytes(pastBlock - firstBlock) else 0
      ensures Keeps(old(pool[..]), pool[..], old(heap.owner))
      ensures ups <= NUM_SIZES - 1 && downs <= NUM_SIZES - 1
    {
      ups, downs := 0, 0;
      var i: nat, tryBits: nat, tryLen: nat := firstBlock, 0, 1;
      if i < pastBlock {
        ghost var goal := C.ToFree(heap, firstBlock, pastBlock);
        ghost var job := Job(firstBlock, pastBlock, goal, pool[..], heap.owner, freeBytes);
        assert Cutting(job, i, tryBits, tryLen, ups, downs);
        hide Cutting, Core, C.ToFree, AllOwned;
        while i < pastBlock
          invariant Cutting(job, i, tryBits, tryLen, ups, downs)
        {
          tryBits, tryLen, ups, downs := CutNext(job, i, pastBlock, tryBits, tryLen, ups, downs);
          i := i + tryLen;
        }
        CuttingDone(job, i, tryBits, tryLen, ups, downs);
      }
    }

    // ----- Sizes of live chunks -----

    predicate InPool(storage: nat)
      reads this
    {
      storage >= poolStart && (storage - poolStart) % 4096 == 0 && (storage - poolStart) / 4096 < poolBlocks
    }

    function BlockOf(storage: nat): (r: nat)
      reads this
      requires InPool(storage)
    {
      (storage - poolStart) / 4096
    }

    /** The class the map shows for a pointer, or -1. */
    ghost function SizeOf(storage: nat): (r: int)
      reads this
    {
      if InPool(storage) then Probe(heap, BlockOf(storage), 0) else -1
    }

    /** What Free and Realloc ask of a pointer: if the map recognises it, it is live. */
    ghost predicate PointerOk(storage: nat)
      reads this
    {
      storage != 0 && SizeOf(storage) >= 0 ==> LiveAt(heap, BlockOf(storage))
    }

    /** Which pointers those are, by the owner of the block they point to. */
    lemma PointerOkIff(storage: nat)
      requires Valid() && storage != 0 && InPool(storage)
      ensures PointerOk(storage) <==> !Mistaken(heap, BlockOf(storage))
    {
      hide Inv, Rep, Probe, Mistaken;
      MistakenIff(heap, BlockOf(storage));
      if SizeOf(storage) >= 0 && LiveAt(heap, BlockOf(storage)) { LivePointer(heap, BlockOf(storage)); }
    }

    /** Determines the size of a busy chunk (BuddyAllocSize). */
    method BuddyAllocSize(storage: nat) returns (status: Status, ourBits: nat)
      requires Core()
      ensures SizeOf(storage) == -1 ==> status == NotAligned
      ensures SizeOf(storage) >= 0 ==> status == Success && ourBits == SizeOf(storage)
    {
      hide Inv, BitAt, ListsInMemory;
      ourBits := 0;
      if storage < poolStart { return NotAligned, 0; }
      var byteOff := storage - poolStart;
      var blockOff := byteOff / 4096;
      if byteOff != 4096 * blockOff { return NotAligned, 0; }
      if blockOff >= poolBlocks { return NotAligned, 0; }
      var blocks := 1;
      while true
        invariant ourBits <= NUM_SIZES && blocks == Pow2(ourBits)
        invariant Probe(heap, blockOff, ourBits) == Probe(heap, blockOff, 0)
        decreases NUM_SIZES - ourBits
      {
        AlignedIsMod(blockOff, ourBits);
        if blockOff + blocks > poolBlocks || ourBits >= NUM_SIZES || blockOff % blocks != 0 {
          return NotAligned, ourBits;
        }
        var marked := BitTest(bitmap, blockOff + blocks - 1);
        if marked { break; }
        blocks := 2 * blocks;
        ourBits := ourBits + 1;
      }
      status := Success;
    }

    // ----- Taking chunks off their lists -----

    /** Takes the first chunk off list b (the middle part of BuddyMalloc). */
    method PopHead(b: nat) returns (status: Status, offset: nat)
      requires Core() && b < NUM_SIZES && heap.lists[b] != []
      modifies this`heap, pool, freeList
      ensures status == Success && offset == old(heap.lists[b][0]) && offset in old(heap.lists[b])
      ensures Core() && heap == Take(old(heap), offset, b)
      ensures Keeps(old(pool[..]), pool[..], old(heap.owner))
    {
      hide Inv, Rep, Pow2, At, Unlinked, Take, Around, Next, Keeps;
      ghost var h, words, bytes, heads: seq<Word> := heap, pool[..], bitmap[..], freeList[..];
      HeadFacts(b);
      FirstEntry(b);
      offset := freeList[b];
      if offset >= poolBlocks { return InternalError, offset; }
      var next;
      status, next := UnlinkFirst(pool, poolBlocks, offset, b, heap.lists[b]);
      if status != Success { return; }
      freeList[b] := next;
      UnlinkRest(h, words, pool[..], b, 0);
      UnlinkRep(words, pool[..], bytes, heads, freeList[..], h, b, 0);
      TakeInv(h, offset, b);
      heap := Take(heap, offset, b);
      assert bitmap[..] == bytes;
    }

    /** Takes chunk `buddy` out of the middle of its list (the loop body of Free). */
    method UnlinkBuddy(buddy: nat, bits: nat) returns (status: Status)
      requires Core() && bits < NUM_SIZES && buddy in heap.lists[bits]
      modifies this`heap, pool, freeList
      ensures status == Success
      ensures Core() && heap == Take(old(heap), buddy, bits)
      ensures Keeps(old(pool[..]), pool[..], old(heap.owner))
    {
      hide Inv, Rep, Pow2, At, Unlinked, Take, Around, Prev, Next, Keeps;
      ghost var h, words, bytes, heads: seq<Word> := heap, pool[..], bitmap[..], freeList[..];
      ghost var i := Entry(buddy, bits);
      var prev, next;
      status, prev, next := UnlinkAny(pool, poolBlocks, buddy, bits, freeList[bits], heap.lists[bits], i);
      if status != Success { return; }
      if prev == OURNULL { freeList[bits] := next; }
      UnlinkRest(h, words, pool[..], bits, i);
      UnlinkRep(words, pool[..], bytes, heads, freeList[..], h, bits, i);
      TakeInv(h, buddy, bits);
      heap := Take(heap, buddy, bits);
      assert bitmap[..] == bytes;
    }

    // ----- Malloc -----

    /** Marks the front of a limbo range as a live chunk in the map. */
    method MarkFront(offset: nat, bits: nat, whole: nat)
      requires Core() && bits <= whole < NUM_SIZES && Aligned(offset, whole)
      requires AllOwned(heap, offset, offset + Pow2(whole), Limbo)
      modifies this`heap, bitmap
      ensures Core() && heap == SetOwner(old(heap), offset, offset + Pow2(bits), Chunk(offset, bits, true))
      ensures Pow2(bits) <= Pow2(whole) && AllOwned(heap, offset + Pow2(bits), offset + Pow2(whole), Limbo)
      ensures StillInUse(old(heap.owner), heap.owner)
    {
      ghost var words, bytes, heads := pool[..], bitmap[..], freeList[..];
      FrontFacts(heap, offset, bits, whole);
      BitSet(bitmap, offset + Pow2(bits) - 1);
      FrontRep(words, bytes, bitmap[..], heads, heap, offset, bits);
      hide Inv, Rep, Pow2, StillInUse, OneBit, AllOwned;
      heap := SetOwner(heap, offset, offset + Pow2(bits), Chunk(offset, bits, true));
      assert pool[..] == words && freeList[..] == heads;
    }

    /** Marks the front of a limbo range as a live chunk and frees the rest. */
    method CarveChunk(offset: nat, bits: nat, whole: nat)
      requires Core() && bits <= whole < NUM_SIZES && Aligned(offset, whole)
      requires AllOwned(heap, offset, offset + Pow2(whole), Limbo)
      requires freeBytes + Bytes(Pow2(whole)) < 0x1_0000_0000
      modifies this`freeBytes, this`heap, pool, bitmap, freeList
      ensures Core() && heap == Carve(old(heap), offset, bits, whole)
      ensures freeBytes == old(freeBytes) + Bytes(Pow2(whole) - Pow2(bits))
      ensures Keeps(old(pool[..]), pool[..], old(heap.owner))
    {
      hide Core, Pow2, Keeps, StillInUse, AllOwned, Aligned, C.ToFree, Paint;
      Sizes();
      ghost var words, owner := pool[..], heap.owner;
      KeepsSelf(words, owner);
      MarkFront(offset, bits, whole);
      assert pool[..] == words;
      ghost var owner1 := heap.owner;
      ghost var ups, downs := ToFree(offset + Pow2(bits), offset + Pow2(whole));
      KeepsTrans(words, words, pool[..], owner, owner1);
    }

    /** Allocates a chunk of class `bits` (BuddyMalloc). */
    method BuddyMalloc(bits: nat) returns (status: Status, newStore: nat)
      requires Valid() && bits <= NUM_SIZES
      modifies this`freeBytes, this`heap, pool, bitmap, freeList
      ensures Valid() && heap == MallocStep(old(heap), bits)
      ensures status == if CanMalloc(old(heap), bits) then Success else NoMemory
      ensures CanMalloc(old(heap), bits) ==> newStore == poolStart + Bytes(MallocOff(old(heap), bits))
      ensures !CanMalloc(old(heap), bits) ==>
                heap == old(heap) && Untouched(old(pool[..]), old(bitmap[..]), old(freeList[..]), old(freeBytes))
      ensures Keeps(old(pool[..]), pool[..], old(heap.owner))
    {
      hide Core, Inv, Pow2, Keeps, StillInUse, Take, Carve, Settled, FreeBlocks, FirstList, MallocHeap, MallocOff;
      hide MallocStep, CanMalloc, AllOwned, Aligned;
      ghost var h, words := heap, pool[..];
      newStore := 0;
      MallocPlan(h, bits);
      var found, retBits := FindList(bits);
      if !found { KeepsSelf(words, h.owner); return NoMemory, 0; }
      var offset;
      status, offset := PopHead(retBits);
      if status != Success { return; }
      ghost var words1, owner1 := pool[..], heap.owner;
      freeBytes := freeBytes - Bytes(Pow2(retBits));
      CarveChunk(offset, bits, retBits);
      KeepsTrans(words, words1, pool[..], h.owner, owner1);
      newStore := poolStart + Bytes(offset);
    }

    /** The first non-empty list from class `bits` on. */
    method FindList(bits: nat) returns (found: bool, retBits: nat)
      requires Valid() && bits <= NUM_SIZES
      ensures found == CanMalloc(heap, bits)
      ensures found ==> retBits == FirstList(heap.lists, bits) < NUM_SIZES == |heap.lists|
    {
      hide Rep, Pow2, FreeBlocks;
      retBits := bits;
      if freeBytes < Bytes(Pow2(bits)) {
        if CanMalloc(heap, bits) { TooLittle(heap, bits); }
        return false, retBits;
      }
      while retBits < NUM_SIZES
        invariant bits <= retBits <= NUM_SIZES
        invariant FirstList(heap.lists, retBits) == FirstList(heap.lists, bits)
      {
        HeadFacts(retBits);
        if freeList[retBits] != OURNULL { break; }
        retBits := retBits + 1;
      }
      found := retBits < NUM_SIZES;
    }

    /** Allocates at least `bytes` bytes (Malloc). */
    method Malloc(bytes: nat) returns (status: Status, newStore: nat)
      requires Valid()
      modifies this`freeBytes, this`heap, pool, bitmap, freeList
      ensures Valid() && heap == Step(old(heap), Call.Malloc(bytes))
      ensures status == if Class(bytes) > NUM_SIZES then NoResources
                        else if CanMalloc(old(heap), Class(bytes)) then Success else NoMemory
      ensures status == Success ==> newStore == poolStart + Bytes(MallocOff(old(heap), Class(bytes)))
      ensures status != Success ==>
                heap == old(heap) && Untouched(old(pool[..]), old(bitmap[..]), old(freeList[..]), old(freeBytes))
      ensures Keeps(old(pool[..]), pool[..], old(heap.owner))
    {
      hide Core, Inv, Keeps, Settled, FirstList, MallocHeap, MallocOff, MallocStep, CanMalloc, Class, Bytes;
      Sizes();
      var bits;
      status, bits := SizeClass(bytes);
      if status != Success {
        CannotMalloc(heap, Class(bytes));
        KeepsSelf(pool[..], heap.owner);
        return status, 0;
      }
      status, newStore := BuddyMalloc(bits);
    }

    // ----- Free -----

    /** The test of the merge loop: the map bit and the trailer word at the end of
        the buddy tell whether the buddy is one free chunk of the same size. */
    method BuddyIsFree(blockOff: nat, bits: nat) returns (status: Status, free: bool)
      requires Core() && bits < NUM_SIZES - 1 && Merging(heap, blockOff, bits)
      ensures status == Success && free == (FlipBit(blockOff, bits) in heap.lists[bits])
    {
      hide Pow2, Aligned, FlipBit, At, BitAt, Inv;
      status, free := Success, false;
      var buddy := FlipBit(blockOff, bits);
      var pastBuddy := buddy + Pow2(bits);
      if pastBuddy > poolBlocks { NotBeyond(heap, buddy, bits); return; }
      MergeTestSound(pool[..], bitmap[..], freeList[..], heap, blockOff, bits);
      var marked := BitTest(bitmap, pastBuddy - 1);
      if marked { return; }
      var trailer := Peek(pool, pastBuddy - 1, OFF_BITS);
      var trueBits := AsInt32(trailer - LEN_OFFSET);
      if trueBits < 0 || trueBits >= NUM_SIZES { return InternalError, false; }
      free := trueBits == bits;
    }

    /** One round of the merge loop of Free. */
    method TryMerge(blockOff: nat, bits: nat) returns (status: Status, merged: bool)
      requires Core() && bits < NUM_SIZES - 1 && Merging(heap, blockOff, bits)
      modifies this`heap, pool, freeList
      ensures Core() && |heap.lists| == NUM_SIZES && status == Success
      ensures merged == (FlipBit(blockOff, bits) in old(heap.lists[bits]))
      ensures heap == if merged then Take(old(heap), FlipBit(blockOff, bits), bits) else old(heap)
      ensures Keeps(old(pool[..]), pool[..], old(heap.owner))
    {
      hide Core, Pow2, FlipBit, Merging, Take, Keeps;
      Sizes();
      KeepsSelf(pool[..], heap.owner);
      status, merged := BuddyIsFree(blockOff, bits);
      if status != Success { return; }
      if merged { status := UnlinkBuddy(FlipBit(blockOff, bits), bits); }
      Sizes();
    }

    /** Puts the merged chunk on its list (the tail of Free). */
    method LinkMerged(blockOff: nat, bits: nat) returns (status: Status)
      requires Core() && bits < NUM_SIZES && Aligned(blockOff, bits)
      requires AllOwned(heap, blockOff, blockOff + Pow2(bits), Limbo)
      modifies this`heap, pool, freeList
      ensures Core() && status == Success && heap == Push(old(heap), blockOff, bits)
      ensures Keeps(old(pool[..]), pool[..], old(heap.owner))
    {
      ghost var words, bytes, heads: seq<Word> := pool[..], bitmap[..], freeList[..];
      HeadFacts(bits);
      HeadNode(words, bytes, heads, heap, bits);
      hide Inv, Rep, Pow2, Linked, Aligned, At;
      status := CheckedWriteNode(pool, poolBlocks, blockOff, bits, freeList[bits]);
      if status != Success { return; }
      freeList[bits] := blockOff;
      LinkRep(words, pool[..], bytes, heads, heap, blockOff, bits);
      PushInv(heap, blockOff, bits);
      LinkKeeps(words, pool[..], heap, blockOff, bits);
      assert freeList[..] == heads[bits := blockOff] && bitmap[..] == bytes;
      heap := Push(heap, blockOff, bits);
    }

    /** Free has merged up to the chunk blockOff of class bits; finishing from
        here gives the heap and keeps the words that `job` asks for. */
    ghost predicate Freeing(job: FreeJob, blockOff: nat, bits: nat)
      reads `poolBlocks, `pool, `bitmap, `heap, pool, bitmap, freeList
    {
      && Core() && |heap.lists| == NUM_SIZES && Merging(heap, blockOff, bits) && Merge(heap, blockOff, bits) == job.goal
      && Keeps(job.words, pool[..], job.owner) && StillInUse(job.owner, heap.owner)
    }

    /** Marks a live chunk as free in the map. */
    method ClearMark(blockOff: nat, bits: nat)
      requires Core() && Settled(heap) && IsLive(heap, blockOff, bits)
      modifies this`heap, bitmap
      ensures heap == SetOwner(old(heap), blockOff, blockOff + Pow2(bits), Limbo)
      ensures Core() && Merging(heap, blockOff, bits)
    {
      ghost var words, bytes, heads := pool[..], bitmap[..], freeList[..];
      LiveFacts(heap, blockOff, bits);
      BitClear(bitmap, blockOff + Pow2(bits) - 1);
      LimboRep(words, bytes, bitmap[..], heads, heap, blockOff, bits);
      hide Inv, Rep, Pow2, Settled, Merging, Whole;
      heap := SetOwner(heap, blockOff, blockOff + Pow2(bits), Limbo);
      assert pool[..] == words && freeList[..] == heads;
    }

    method MergeOnce(ghost job: FreeJob, oldOff: nat, oldBits: nat)
      returns (status: Status, merged: bool, blockOff: nat, bits: nat)
      requires Freeing(job, oldOff, oldBits) && oldBits < NUM_SIZES - 1
      modifies this`heap, pool, freeList
      ensures status == Success && Freeing(job, blockOff, bits) && |heap.lists| == NUM_SIZES
      ensures bits == if merged then oldBits + 1 else oldBits
      ensures !merged ==> FlipBit(blockOff, bits) !in heap.lists[bits]
    {
      hide Core, Pow2, Aligned, FlipBit, Merging, Take, Keeps, StillInUse, Merge;
      var buddy := FlipBit(oldOff, oldBits);
      MergeStepFacts(heap, oldOff, oldBits);
      blockOff, bits := oldOff, oldBits;
      status, merged := TryMerge(oldOff, oldBits);
      KeepsTrans(job.words, old(pool[..]), pool[..], job.owner, old(heap.owner));
      if status != Success { return; }
      if merged {
        StillInUseTrans(job.owner, old(heap.owner), heap.owner);
        bits := bits + 1;
        if buddy < blockOff { blockOff := buddy; }
      }
    }

    /** Frees a live chunk: clears its mark, merges it with its buddies and links
        the result in (Free, after the size has been found). */
    method FreeChunk(storageOff: nat, oldBits: nat) returns (status: Status)
      requires Valid() && IsLive(heap, storageOff, oldBits)
      modifies this`freeBytes, this`heap, pool, bitmap, freeList
      ensures Valid() && status == Success
      ensures oldBits < |old(heap).lists| && heap == FreeHeap(old(heap), storageOff, oldBits)
      ensures Keeps(old(pool[..]), pool[..], SetOwner(old(heap), storageOff, storageOff + Pow2(oldBits), Limbo).owner)
    {
      hide Core, Pow2, Keeps, StillInUse, Settled, Merge, FreeHeap, FreeBlocks, Merging, IsLive, Push, Aligned;
      hide AllOwned;
      Sizes();
      FreePlan(heap, storageOff, oldBits);
      ghost var h, words := heap, pool[..];
      var blockOff, bits := storageOff, oldBits;
      ClearMark(blockOff, bits);
      ghost var job := FreeJob(FreeHeap(h, storageOff, oldBits), words, heap.owner);
      assert pool[..] == words;
      KeepsSelf(words, heap.owner);
      status, blockOff, bits := MergeAll(job, blockOff, bits);
      if status != Success { return; }
      ghost var words1, owner1 := pool[..], heap.owner;
      status := LinkMerged(blockOff, bits);
      if status != Success { return; }
      KeepsTrans(words, words1, pool[..], job.owner, owner1);
      freeBytes := freeBytes + Bytes(Pow2(oldBits));
    }

    /** The merge loop of Free. */
    method MergeAll(ghost job: FreeJob, firstOff: nat, firstBits: nat)
      returns (status: Status, blockOff: nat, bits: nat)
      requires Freeing(job, firstOff, firstBits) && firstBits < NUM_SIZES
      modifies this`heap, pool, freeList
      ensures status == Success && Core() && bits < NUM_SIZES && Aligned(blockOff, bits)
      ensures AllOwned(heap, blockOff, blockOff + Pow2(bits), Limbo)
      ensures Push(heap, blockOff, bits) == job.goal
      ensures Keeps(job.words, pool[..], job.owner) && StillInUse(job.owner, heap.owner)
    {
      hide Core, Freeing, FlipBit, Pow2, Aligned;
      status, blockOff, bits := Success, firstOff, firstBits;
      var merged := true;
      while merged && bits < NUM_SIZES - 1
        invariant status == Success && bits < NUM_SIZES && Freeing(job, blockOff, bits)
        invariant !merged ==> |heap.lists| == NUM_SIZES && FlipBit(blockOff, bits) !in heap.lists[bits]
        decreases NUM_SIZES - bits, merged
      {
        status, merged, blockOff, bits := MergeOnce(job, blockOff, bits);
        if status != Success { return; }
      }
      MergeDone(job, blockOff, bits);
    }

    lemma MergeDone(job: FreeJob, blockOff: nat, bits: nat)
      requires Freeing(job, blockOff, bits) && bits < NUM_SIZES
      requires bits == NUM_SIZES - 1 || (bits < |heap.lists| && FlipBit(blockOff, bits) !in heap.lists[bits])
      ensures Core() && |heap.lists| == NUM_SIZES && Aligned(blockOff, bits)
      ensures AllOwned(heap, blockOff, blockOff + Pow2(bits), Limbo)
      ensures Push(heap, blockOff, bits) == job.goal
      ensures Keeps(job.words, pool[..], job.owner) && StillInUse(job.owner, heap.owner)
    {
    }

    /** Frees a chunk by its address (Free).  Null and addresses the map does not
        recognise change nothing; addresses the map would mistake for a live chunk
        (PointerOkIff) are the caller's fault. */
    method Free(storage: nat) returns (status: Status)
      requires Valid()
      requires PointerOk(storage)
      modifies this`freeBytes, this`heap, pool, bitmap, freeList
      ensures Valid()
      ensures status == if storage == 0 || old(SizeOf(storage)) >= 0 then Success else NotAligned
      ensures storage == 0 || old(SizeOf(storage)) == -1 ==>
                heap == old(heap) && Untouched(old(pool[..]), old(bitmap[..]), old(freeList[..]), old(freeBytes))
      ensures storage != 0 && old(SizeOf(storage)) >= 0 ==> heap == Step(old(heap), Call.Free(old(BlockOf(storage))))
      ensures Keeps(old(pool[..]), pool[..], old(Others(storage)))
    {
      hide Core, Pow2, Keeps, Settled, FreeHeap, FreeBlocks, Probe, Step, OwnersBut, LiveAt, IsLive, Legal;
      KeepsSelf(pool[..], Others(storage));
      if storage == 0 { return Success; }
      if SizeOf(storage) >= 0 { LivePointer(heap, BlockOf(storage)); }
      var bits;
      status, bits := BuddyAllocSize(storage);
      if status != Success { return; }
      var blockOff := (storage - poolStart) / 4096;
      status := FreeChunk(blockOff, bits);
    }

    // ----- Realloc -----

    /** Moves the end mark of a live chunk, leaving the rest of it in limbo. */
    method MoveMark(blockNo: nat, bits: nat, newBits: nat)
      requires Core() && Settled(heap) && IsLive(heap, blockNo, bits) && newBits < bits
      modifies this`heap, bitmap
      ensures Core() && bits < NUM_SIZES
      ensures heap == SetOwner(SetOwner(old(heap), blockNo, blockNo + Pow2(bits), Limbo),
                               blockNo, blockNo + Pow2(newBits), Chunk(blockNo, newBits, true))
      ensures Pow2(newBits) <= Pow2(bits) && AllOwned(heap, blockNo + Pow2(newBits), blockNo + Pow2(bits), Limbo)
      ensures AllOwned(heap, blockNo, blockNo + Pow2(newBits), Chunk(blockNo, newBits, true))
      ensures StillInUse(OwnersBut(old(heap), blockNo), heap.owner)
    {
      ghost var words, bytes, heads, h := pool[..], bitmap[..], freeList[..], heap;
      ShrinkFacts(heap, blockNo, bits, newBits);
      hide Inv, Rep, Pow2, Settled, AllOwned, StillInUse, OwnersBut, Whole, OneBit, IsLive;
      BitSet(bitmap, blockNo + Pow2(newBits) - 1);
      ghost var bytes1 := bitmap[..];
      BitClear(bitmap, blockNo + Pow2(bits) - 1);
      ShrinkRep(words, bytes, bytes1, bitmap[..], heads, heap, blockNo, bits, newBits);
      heap := SetOwner(SetOwner(heap, blockNo, blockNo + Pow2(bits), Limbo),
                       blockNo, blockNo + Pow2(newBits), Chunk(blockNo, newBits, true));
      assert pool[..] == words && freeList[..] == heads;
    }

    /** Shrinks a live chunk in place (the tail of Realloc). */
    method ShrinkChunk(blockNo: nat, bits: nat, newBits: nat)
      requires Valid() && IsLive(heap, blockNo, bits) && newBits < bits
      modifies this`freeBytes, this`heap, pool, bitmap, freeList
      ensures Valid() && |old(heap).lists| > 0 && heap == ShrinkHeap(old(heap), blockNo, bits, newBits)
      ensures Keeps(old(pool[..]), pool[..], OwnersBut(old(heap), blockNo))
      ensures CopyOf(old(pool[..]), pool[..], blockNo, blockNo, Pow2(newBits))
    {
      hide Core, Pow2, Keeps, StillInUse, AllOwned, Settled, FreeBlocks, C.ToFree, ShrinkHeap, OwnersBut, IsLive;
      hide CopyOf, LiveAt;
      Sizes();
      ShrinkPlan(heap, blockNo, bits, newBits);
      ghost var h, words := heap, pool[..];
      KeepsSelf(words, OwnersBut(h, blockNo));
      MoveMark(blockNo, bits, newBits);
      assert pool[..] == words;
      ghost var h1 := heap;
      ghost var ups, downs := ToFree(blockNo + Pow2(newBits), blockNo + Pow2(bits));
      KeepsTrans(words, words, pool[..], OwnersBut(h, blockNo), h1.owner);
      FrontKept(words, pool[..], h1, blockNo, newBits);
    }

    /** Copies n blocks of words inside the pool, from one live chunk to another. */
    method CopyChunk(src: nat, dst: nat, n: nat)
      requires Core() && src + n <= poolBlocks && dst + n <= poolBlocks && (src + n <= dst || dst + n <= src)
      requires forall x :: dst <= x < dst + n ==> InUse(heap.owner[x])
      modifies pool
      ensures Core() && CopyOf(old(pool[..]), pool[..], src, dst, n)
      ensures SameWordsOutside(old(pool[..]), pool[..], dst, n)
    {
      ghost var words, bytes, heads := pool[..], bitmap[..], freeList[..];
      hide Inv, Rep, ListsInMemory, CopyOf, SameWordsOutside;
      CopyWords(pool, src, dst, n);
      CopyRep(words, pool[..], bytes, heads, heap, dst, n);
      assert bitmap[..] == bytes && freeList[..] == heads;
    }

    /** Copies a live chunk to the front of a bigger one and frees it. */
    method MoveChunk(src: nat, dst: nat, bits: nat, ghost before: seq<Owner>, ghost but: seq<Owner>,
                     ghost words: seq<Word>)
      requires Valid() && IsLive(heap, src, bits)
      requires Moving(before, heap.owner, but, SetOwner(heap, src, src + Pow2(bits), Limbo).owner, src, dst, Pow2(bits))
      requires |words| == 1024 * |before| && Keeps(words, pool[..], before)
      modifies this`freeBytes, this`heap, pool, bitmap, freeList
      ensures Valid() && bits < |old(heap).lists| && heap == FreeHeap(old(heap), src, bits)
      ensures Keeps(words, pool[..], but) && CopyOf(words, pool[..], src, dst, Pow2(bits))
    {
      hide Core, Pow2, Keeps, Settled, FreeHeap, FreeBlocks, CopyOf, SameWordsOutside, InUse, HasWord, IsLive;
      Sizes();
      ghost var now, during := heap.owner, SetOwner(heap, src, src + Pow2(bits), Limbo).owner;
      ghost var words1 := pool[..];
      CopyChunk(src, dst, Pow2(bits));
      ghost var words2 := pool[..];
      var status := FreeChunk(src, bits);
      // Freeing a live chunk cannot fail, so the clean-up of the new chunk is dead code.
      MovedWords(words, words1, words2, pool[..], before, now, but, during, src, dst, Pow2(bits));
    }

    /** Grows a live chunk by moving it (the middle part of Realloc). */
    method GrowChunk(blockNo: nat, bits: nat, size: nat) returns (status: Status, newPtr: nat)
      requires Valid() && IsLive(heap, blockNo, bits) && size > 0 && Class(size) > bits
      modifies this`freeBytes, this`heap, pool, bitmap, freeList
      ensures Valid() && Resized(old(heap), heap, blockNo, size)
      ensures status == ResizeStatus(old(heap), blockNo, size)
      ensures status != Success ==> Untouched(old(pool[..]), old(bitmap[..]), old(freeList[..]), old(freeBytes))
      ensures status == Success ==>
                && newPtr == poolStart + Bytes(ReallocOff(old(heap), blockNo, size))
                && ContentsKept(old(heap), old(pool[..]), pool[..], blockNo, size)
    {
      hide Core, Inv, Pow2, Keeps, Settled, FirstList, MallocHeap, MallocOff, CanMalloc, FreeHeap, FreeBlocks, Class;
      hide IsLive, OwnersBut, CopyOf, Moving, InUse, Resized, ResizeStatus, ReallocOff, ContentsKept, LiveAt;
      ghost var h, words := heap, pool[..];
      Sizes();
      GrowStart(h, blockNo, bits, Class(size));
      status, newPtr := Malloc(size);
      GrowFails(h, blockNo, bits, size);
      if status != Success { return; }
      MoveChunk(blockNo, (newPtr - poolStart) / 4096, bits, h.owner, OwnersBut(h, blockNo), words);
      GrowSpec(h, heap, words, pool[..], blockNo, bits, size);
    }

    /** Resizes a live chunk to a non-zero size. */
    method ResizeChunk(ptr: nat, bits: nat, size: nat) returns (status: Status, newPtr: nat)
      requires Valid() && InPool(ptr) && IsLive(heap, BlockOf(ptr), bits) && size > 0
      modifies this`freeBytes, this`heap, pool, bitmap, freeList
      ensures Valid() && Resized(old(heap), heap, old(BlockOf(ptr)), size)
      ensures status == ResizeStatus(old(heap), old(BlockOf(ptr)), size)
      ensures status != Success ==> Untouched(old(pool[..]), old(bitmap[..]), old(freeList[..]), old(freeBytes))
      ensures status == Success ==>
                && newPtr == poolStart + Bytes(ReallocOff(old(heap), old(BlockOf(ptr)), size))
                && ContentsKept(old(heap), old(pool[..]), pool[..], old(BlockOf(ptr)), size)
    {
      hide Core, Pow2, Keeps, Settled, FreeBlocks, IsLive, CopyOf, Resized, ResizeStatus, ReallocOff, ContentsKept;
      hide LiveAt, ShrinkHeap, OwnersBut, Class;
      ghost var h, words := heap, pool[..];
      var blockNo := (ptr - poolStart) / 4096;
      Sizes();
      SmallerClass(size, bits);
      if Bytes(Pow2(bits)) < size {
        status, newPtr := GrowChunk(blockNo, bits, size);
        return;
      }
      status, newPtr := Success, ptr;
      var newBits := FitClass(size, bits);
      if newBits < bits {
        ShrinkChunk(blockNo, bits, newBits);
      } else {
        SameKept(h, words, blockNo, bits);
      }
      ShrinkSpec(h, heap, words, pool[..], blockNo, bits, size);
    }

    /** Resizes a chunk (Realloc): size zero frees it, a null pointer allocates, and
        otherwise the data move along with the chunk. */
    method Realloc(ptr: nat, size: nat) returns (status: Status, newPtr: nat)
      requires Valid()
      requires PointerOk(ptr)
      modifies this`freeBytes, this`heap, pool, bitmap, freeList
      ensures Valid()
      ensures size == 0 ==>
                && status == (if ptr == 0 || old(SizeOf(ptr)) >= 0 then Success else NotAligned)
                && (ptr == 0 ==> heap == old(heap))
      ensures size > 0 && ptr == 0 ==>
                && heap == Step(old(heap), Call.Malloc(size))
                && status == (if Class(size) > NUM_SIZES then NoResources
                              else if CanMalloc(old(heap), Class(size)) then Success else NoMemory)
                && (status == Success ==> newPtr == poolStart + Bytes(MallocOff(old(heap), Class(size))))
      ensures ptr != 0 && old(SizeOf(ptr)) == -1 ==> status == NotAligned && heap == old(heap)
      ensures ptr != 0 && old(SizeOf(ptr)) >= 0 ==> heap == Step(old(heap), Call.Realloc(old(BlockOf(ptr)), size))
      ensures size > 0 && ptr != 0 && old(SizeOf(ptr)) >= 0 ==>
                && status == ResizeStatus(old(heap), old(BlockOf(ptr)), size)
                && (status == Success ==>
                     && newPtr == poolStart + Bytes(ReallocOff(old(heap), old(BlockOf(ptr)), size))
                     && ContentsKept(old(heap), old(pool[..]), pool[..], old(BlockOf(ptr)), size))
      ensures status != Success ==> Untouched(old(pool[..]), old(bitmap[..]), old(freeList[..]), old(freeBytes))
      ensures Keeps(old(pool[..]), pool[..], old(Others(ptr)))
    {
      hide Core, Pow2, Keeps, Settled, FreeBlocks, IsLive, ResizeStatus, ReallocOff, LiveAt, OwnersBut;
      hide Class, Probe, Step, Legal, MallocOff, CanMalloc;
      KeepsSelf(pool[..], Others(ptr));
      if ptr != 0 && SizeOf(ptr) >= 0 { LivePointer(heap, BlockOf(ptr)); }
      if size == 0 {
        status := Free(ptr);
        return status, 0;
      }
      if ptr == 0 {
        status, newPtr := Malloc(size);
        return;
      }
      var bits;
      status, bits := BuddyAllocSize(ptr);
      newPtr := 0;
      if status != Success { return; }
      status, newPtr := ResizeChunk(ptr, bits, size);
    }

    /** The owners of what a call on `storage` must not write. */
    ghost function Others(storage: nat): (r: seq<Owner>)
      reads this
    {
      if storage != 0 && SizeOf(storage) >= 0 && LiveAt(heap, BlockOf(storage)) then OwnersBut(heap, BlockOf(storage))
      else heap.owner
    }

    ghost predicate Untouched(words: seq<Word>, bytes: seq<bv8>, heads: seq<Word>, was: int)
      reads this, pool, bitmap, freeList
    {
      pool[..] == words && bitmap[..] == bytes && freeList[..] == heads && freeBytes == was
    }

    // ----- Check -----

    /** Available memory, in bytes (Available). */
    method Available() returns (bytesFree: nat)
      requires Valid()
      ensures bytesFree == Bytes(FreeBlocks(heap))
    {
      bytesFree := freeBytes;
    }

    /** What Check can be called on: arrays as Init sets them up, with any contents
        that do not send it past the end of the pool. */
    ghost predicate Checkable()
      reads `poolBlocks, `pool, `bitmap, pool, bitmap, freeList
    {
      && freeList.Length == NUM_SIZES
      && pool.Length == 1024 * poolBlocks < 0x4000_0000 && poolBlocks <= 8 * bitmap.Length
      && forall b :: 0 <= b < NUM_SIZES ==> StaysInside(pool[..], bitmap[..], freeList[..], poolBlocks, b)
    }

    lemma ValidCheckable()
      requires Valid()
      ensures Checkable()
    {
      hide StaysInside, Inv, Rep;
      forall b | 0 <= b < NUM_SIZES ensures StaysInside(pool[..], bitmap[..], freeList[..], poolBlocks, b) {
        DamagedStaysInside(pool[..], bitmap[..], pool[..], bitmap[..], freeList[..], heap, b);
      }
    }

    /** The tests Check makes on one list entry. */
    method CheckEntry(offset: Word, size: nat, prevOffset: Word) returns (status: Status, next: Word)
      requires offset < poolBlocks && size < NUM_SIZES ==>
                 1024 * (offset + Pow2(size)) <= pool.Length && offset + Pow2(size) <= 8 * bitmap.Length
      requires size < NUM_SIZES && poolBlocks < OURNULL
      ensures status == Success <==>
                offset < poolBlocks && EntryFine(pool[..], bitmap[..], offset, size, prevOffset)
      ensures status == Success ==> HasWord(pool[..], offset, OFF_NEXT) && next == At(pool[..], offset, OFF_NEXT)
    {
      hide Pow2, AllLooked;
      next := OURNULL;
      if offset >= poolBlocks { return InternalError, next; }
      var any := TestAny(bitmap, offset, offset + Pow2(size));
      if any { return InternalError, next; }
      if pool[1024 * offset + OFF_MAGIC] != MAGIC { return InternalError, next; }
      if pool[1024 * offset + OFF_PREV] != prevOffset { return InternalError, next; }
      if pool[1024 * (offset + Pow2(size) - 1) + OFF_BITS] != size + LEN_OFFSET { return InternalError, next; }
      next := pool[1024 * offset + OFF_NEXT];
      status := Success;
    }

    /** Walks one free list (the inner loop of Check): it succeeds exactly if there
        is a list that passes, and then it has seen that list. */
    method CheckList(size: nat, store: Word)
      returns (status: Status, blocksSeen: nat, seenStore: Word, ghost seen: seq<nat>)
      requires size < NUM_SIZES && Checkable()
      ensures status == Success <==> SomePasses(pool[..], bitmap[..], freeList[..], poolBlocks, size)
      ensures status == Success ==>
                && Passes(pool[..], bitmap[..], freeList[..], poolBlocks, seen, size)
                && blocksSeen == |seen| && seenStore == (store + ListBlocks(seen, size)) % 0x1_0000_0000
      ensures forall s :: Passes(pool[..], bitmap[..], freeList[..], poolBlocks, s, size) ==>
                status == Success && s == seen
    {
      hide Pow2, EntryFine, Walked, Shift, ListFine, Passes, SomePasses, StaysInside;
      CheckStart(size);
      var offset: Word, prevOffset: Word := freeList[size], OURNULL;
      var maxBlocks := Shift(poolBlocks, size);
      blocksSeen, seenStore, seen := 0, store, [];
      while offset != OURNULL && blocksSeen < maxBlocks
        invariant |seen| == blocksSeen <= maxBlocks
        invariant Walked(pool[..], bitmap[..], freeList[..], poolBlocks, seen, size, offset, prevOffset)
        invariant seenStore == (store + ListBlocks(seen, size)) % 0x1_0000_0000
        decreases maxBlocks - blocksSeen
      {
        CheckReads(size, seen, offset, prevOffset);
        var next;
        status, next := CheckEntry(offset, size, prevOffset);
        if status != Success {
          NoPassingEntry(pool[..], bitmap[..], freeList[..], poolBlocks, size, seen, offset, prevOffset);
          return;
        }
        WalkOn(pool[..], bitmap[..], freeList[..], poolBlocks, seen, size, offset, prevOffset, next);
        ListBlocksAppend(seen, offset, size);
        seen := seen + [offset];
        prevOffset, offset := offset, next;
        seenStore := Add32(seenStore, Pow2(size));
        blocksSeen := blocksSeen + 1;
      }
      CheckEnd(size, seen, offset, prevOffset);
      status := if offset != OURNULL then InternalError else Success;
    }

    /** Checks every free list and the byte counter (Check).  It succeeds exactly if
        the memory holds thirteen well-linked lists that add up to the counter; a
        valid state always passes. */
    method Check() returns (status: Status, counts: seq<nat>, ghost lists: seq<seq<nat>>)
      requires Checkable()
      ensures status == Success <==>
                exists ls :: Balanced(pool[..], bitmap[..], freeList[..], poolBlocks, freeBytes, ls)
      ensures status == Success ==>
                && Balanced(pool[..], bitmap[..], freeList[..], poolBlocks, freeBytes, lists)
                && |lists| == |counts| == NUM_SIZES && forall b :: 0 <= b < NUM_SIZES ==> counts[b] == |lists[b]|
      ensures Valid() ==> status == Success && lists == heap.lists
    {
      hide Core, Settled, FreeBlocks, ListBlocks, Pow2, Passes, SomePasses, StaysInside;
      var seenStore: Word := 0;
      counts, lists := [], [];
      for size := 0 to NUM_SIZES
        invariant |lists| == |counts| == size && freeList.Length == NUM_SIZES
        invariant forall b :: 0 <= b < size ==> counts[b] == |lists[b]|
        invariant OnlyLists(lists)
        invariant seenStore == AllListBlocks(lists) % 0x1_0000_0000
      {
        var blocksSeen;
        ghost var seen;
        status, blocksSeen, seenStore, seen := CheckList(size, seenStore);
        if status != Success {
          NoList(size);
          CheckValid();
          return;
        }
        assert (lists + [seen])[..size] == lists;
        AddMod(AllListBlocks(lists), ListBlocks(seen, size));
        counts, lists := counts + [blocksSeen], lists + [seen];
      }
      ShiftMod(AllListBlocks(lists));
      CheckTotal(lists);
      CheckValid();
      status := if 4096 * seenStore % 0x1_0000_0000 != freeBytes then InternalError else Success;
    }

    /** These are the only lists that pass, class by class. */
    ghost predicate OnlyLists(lists: seq<seq<nat>>)
      reads this, pool, bitmap, freeList
    {
      forall b :: 0 <= b < |lists| ==>
        && Passes(pool[..], bitmap[..], freeList[..], poolBlocks, lists[b], b)
        && forall s :: Passes(pool[..], bitmap[..], freeList[..], poolBlocks, s, b) ==> s == lists[b]
    }

    lemma NoList(size: nat)
      requires size < NUM_SIZES == freeList.Length
      requires forall s :: !Passes(pool[..], bitmap[..], freeList[..], poolBlocks, s, size)
      ensures !exists ls :: Balanced(pool[..], bitmap[..], freeList[..], poolBlocks, freeBytes, ls)
    {
      hide Passes;
      forall ls ensures !Balanced(pool[..], bitmap[..], freeList[..], poolBlocks, freeBytes, ls) {
        if |ls| == NUM_SIZES { assert !Passes(pool[..], bitmap[..], freeList[..], poolBlocks, ls[size], size); }
      }
    }

    lemma CheckTotal(lists: seq<seq<nat>>)
      requires |lists| == NUM_SIZES == freeList.Length && OnlyLists(lists)
      ensures (exists ls :: Balanced(pool[..], bitmap[..], freeList[..], poolBlocks, freeBytes, ls))
         <==> freeBytes == Bytes(AllListBlocks(lists)) % 0x1_0000_0000
      ensures forall ls :: Balanced(pool[..], bitmap[..], freeList[..], poolBlocks, freeBytes, ls) ==> ls == lists
    {
      hide Passes, AllListBlocks;
      forall ls | Balanced(pool[..], bitmap[..], freeList[..], poolBlocks, freeBytes, ls) ensures ls == lists {
        forall b | 0 <= b < NUM_SIZES ensures ls[b] == lists[b] {
          assert Passes(pool[..], bitmap[..], freeList[..], poolBlocks, ls[b], b);
        }
      }
      assert freeBytes == Bytes(AllListBlocks(lists)) % 0x1_0000_0000 ==>
        Balanced(pool[..], bitmap[..], freeList[..], poolBlocks, freeBytes, lists);
    }

    /** A valid state is balanced. */
    lemma CheckValid()
      ensures Valid() ==> Balanced(pool[..], bitmap[..], freeList[..], poolBlocks, freeBytes, heap.lists)
    {
      hide Passes, Inv, Rep;
      if Valid() {
        ListsAddUp(heap);
        CountTotal(heap.owner);
        forall b | 0 <= b < NUM_SIZES ensures Passes(pool[..], bitmap[..], freeList[..], poolBlocks, heap.lists[b], b) {
          ListedPasses(pool[..], bitmap[..], freeList[..], heap, b);
        }
      }
    }

    lemma CheckStart(size: nat)
      requires size < NUM_SIZES && Checkable()
      ensures poolBlocks < OURNULL
      ensures Walked(pool[..], bitmap[..], freeList[..], poolBlocks, [], size, freeList[size], OURNULL)
    {
    }

    /** What is read is there. */
    lemma CheckReads(size: nat, seen: seq<nat>, offset: Word, prevOffset: Word)
      requires size < NUM_SIZES && Checkable()
      requires Walked(pool[..], bitmap[..], freeList[..], poolBlocks, seen, size, offset, prevOffset)
      ensures offset < poolBlocks ==>
                1024 * (offset + Pow2(size)) <= pool.Length && offset + Pow2(size) <= 8 * bitmap.Length
    {
      hide Walked, Pow2;
      assert StaysInside(pool[..], bitmap[..], freeList[..], poolBlocks, size);
    }

    lemma CheckEnd(size: nat, seen: seq<nat>, offset: Word, prevOffset: Word)
      requires size < NUM_SIZES == freeList.Length
      requires Walked(pool[..], bitmap[..], freeList[..], poolBlocks, seen, size, offset, prevOffset)
      requires |seen| <= Shift(poolBlocks, size) && (offset != OURNULL ==> |seen| >= Shift(poolBlocks, size))
      ensures offset == OURNULL ==> Passes(pool[..], bitmap[..], freeList[..], poolBlocks, seen, size)
      ensures offset == OURNULL <==> SomePasses(pool[..], bitmap[..], freeList[..], poolBlocks, size)
      ensures forall s :: Passes(pool[..], bitmap[..], freeList[..], poolBlocks, s, size) ==>
                offset == OURNULL && s == seen
    {
      hide Walked, ListFine, Shift;
      if offset == OURNULL { WalkedAll(pool[..], bitmap[..], freeList[..], poolBlocks, seen, size, prevOffset); }
      forall s | Passes(pool[..], bitmap[..], freeList[..], poolBlocks, s, size) ensures offset == OURNULL
        && s == seen {
        OnlyPassing(pool[..], bitmap[..], freeList[..], poolBlocks, s, size, seen, offset, prevOffset);
      }
    }

    lemma Sizes()
      requires Core()
      ensures |heap.lists| == NUM_SIZES && poolBlocks == |heap.owner| <= 8 * bitmap.Length
          && |pool[..]| == 1024 * |heap.owner| < 0x4000_0000
      ensures pool != freeList && bitmap as object != pool && bitmap as object != freeList
    {
    }

    lemma FirstEntry(b: nat)
      requires Core() && b < NUM_SIZES && heap.lists[b] != []
      ensures var o := heap.lists[b][0];
              && o in heap.lists[b] && Around(pool[..], poolBlocks, heap.lists[b], b, 0)
              && |Take(heap, o, b).lists| == NUM_SIZES && |Take(heap, o, b).owner| == poolBlocks
    {
      InList(pool[..], bitmap[..], freeList[..], heap, b, 0);
    }

    lemma Entry(o: nat, b: nat) returns (i: nat)
      requires Core() && b < NUM_SIZES && o in heap.lists[b]
      ensures i < |heap.lists[b]| && heap.lists[b][i] == o && freeList[b] != OURNULL
      ensures Around(pool[..], poolBlocks, heap.lists[b], b, i)
      ensures |Take(heap, o, b).lists| == NUM_SIZES && |Take(heap, o, b).owner| == poolBlocks
    {
      i := IndexOf(heap.lists[b], o);
      InList(pool[..], bitmap[..], freeList[..], heap, b, i);
      HeadFacts(b);
    }

    /** The head of a list is null or the start of a free chunk. */
    lemma HeadFacts(b: nat)
      requires Core() && b < NUM_SIZES
      ensures freeList[b] == Head(heap.lists[b])
      ensures (freeList[b] == OURNULL) == (heap.lists[b] == [])
      ensures heap.lists[b] != [] ==>
                freeList[b] < poolBlocks && heap.owner[freeList[b]] == Chunk(freeList[b], b, false)
    {
      if heap.lists[b] != [] { NodeBlocks(heap, b, 0); }
    }
  }

  /** Sets an allocator up over s bytes of video memory (setupAllocator): the part
      past the traceable region is released, and the region itself too if the
      front buffer lives elsewhere. */
  method SetupAllocator(a: Allocator, address: nat, s: nat, memory: array<Word>, haveFrontBuffer: bool)
    returns (status: Status)
    requires a.freeList.Length == NUM_SIZES && memory != a.freeList
    requires memory.Length == 1024 * (s / 4096) && s % 4096 == 0
    modifies a, a.freeList, memory
    ensures status == if address == 0 || s == 0 then NoMemory
                      else if address % 4096 != 0 || s >= 0x1_0000_0000 then BadArgument else Success
    ensures status == Success ==> a.Valid() && a.heap == SetupHeap(s / 4096, NUM_SIZES, haveFrontBuffer)
  {
    hide Allocator.Core, Settled, FreeBlocks, ReleaseHeap, AllOwned, AllLooked, Keeps;
    if address == 0 || s == 0 { return NoMemory; }
    status := a.Init(address, s, memory);
    if status != Success { return; }
    Pow2Table();
    SetupSteps(s / 4096, haveFrontBuffer);
    a.Sizes();
    var region := s;
    if 0x100_0000 < s {
      a.ReservedLooked(4096, s / 4096);
      status := a.Release(0x100_0000, s);
      if status != Success { return; }
      region := 0x100_0000;
    }
    if haveFrontBuffer {
      a.Sizes();
      a.ReservedLooked(0, region / 4096);
      status := a.Release(0, region);
    }
  }

  lemma SetupSteps(n: nat, frontBuffer: bool)
    ensures |InitHeap(n, NUM_SIZES).owner| == n && |InitHeap(n, NUM_SIZES).lists| == NUM_SIZES
    ensures 4096 < n ==> AllOwned(InitHeap(n, NUM_SIZES), 4096, n, Reserved)
    ensures SetupUpper(n, NUM_SIZES) == if 4096 < n then ReleaseHeap(InitHeap(n, NUM_SIZES), 4096, n)
        else InitHeap(n, NUM_SIZES)
    ensures |SetupUpper(n, NUM_SIZES).owner| == n && |SetupUpper(n, NUM_SIZES).lists| == NUM_SIZES
    ensures AllOwned(SetupUpper(n, NUM_SIZES), 0, if 4096 < n then 4096 else n, Reserved)
    ensures SetupHeap(n, NUM_SIZES, frontBuffer) ==
              if frontBuffer then ReleaseHeap(SetupUpper(n, NUM_SIZES), 0, if 4096 < n then 4096 else n)
                else SetupUpper(n, NUM_SIZES)
  {
    Pow2Table();
    SetupUpperEffect(n, NUM_SIZES);
  }

  // ----- Calls that belong together -----

  /** Freeing what was just allocated: in canonical form not only the abstract heap
      but every list head, every bit of the map and the byte counter come back. */
  method MallocAndFree(a: Allocator, bytes: nat) returns (status: Status)
    requires a.Valid() && a.poolStart > 0
    modifies a`freeBytes, a`heap, a.pool, a.bitmap, a.freeList
    ensures a.Valid()
    ensures Canonical(old(a.heap)) ==> a.heap == old(a.heap)
    ensures a.heap == old(a.heap) ==>
              && a.freeList[..] == old(a.freeList[..]) && a.bitmap[..] == old(a.bitmap[..])
              && a.freeBytes == old(a.freeBytes)
    ensures Keeps(old(a.pool[..]), a.pool[..], old(a.heap.owner))
  {
    hide Allocator.Core, Keeps, Settled, FreeBlocks, Mistaken, Step, MallocHeap, MallocOff, CanMalloc, Class, OwnersBut;
    hide Probe, LiveAt, StillInUse, Canonical, Bytes, Rep, Inv;
    ghost var h, words, bits, heads: seq<Word> := a.heap, a.pool[..], a.bitmap[..], a.freeList[..];
    LaidOut(a);
    var newStore;
    status, newStore := a.Malloc(bytes);
    a.Sizes();
    ghost var words1 := a.pool[..];
    if status == Success {
      MallocFreePlan(h, bytes);
      StoreInPool(a, MallocOff(h, Class(bytes)));
      status := a.Free(newStore);
      KeepsTrans(words, words1, a.pool[..], h.owner, OwnersBut(Step(h, Call.Malloc(bytes)), MallocOff(h,
        Class(bytes))));
    }
    LaidOut(a);
    if a.heap == h { LayoutUnique(words, a.pool[..], bits, a.bitmap[..], heads, a.freeList[..], h); }
  }

  lemma LaidOut(a: Allocator)
    requires a.Valid()
    ensures Settled(a.heap) && Rep(a.pool[..], a.bitmap[..], a.freeList[..], a.heap)
  {
  }

  lemma StoreInPool(a: Allocator, off: nat)
    requires off < a.poolBlocks
    ensures a.InPool(a.poolStart + Bytes(off)) && a.BlockOf(a.poolStart + Bytes(off)) == off
  {
  }

  /** Overwriting any one word but a next link of a list: Check still reads only the
      pool, and passes exactly if all headers and trailers of free chunks are in place. */
  method OverwriteAndCheck(a: Allocator, x: nat, k: nat, v: Word) returns (status: Status)
    requires a.Valid() && HasWord(a.pool[..], x, k)
    requires k == OFF_NEXT ==> forall b :: 0 <= b < |a.heap.lists| ==> x !in a.heap.lists[b]
    modifies a.pool
    ensures OneWord(old(a.pool[..]), a.pool[..], x, k, v)
    ensures status == Success <==> ListsInMemory(a.pool[..], a.heap.lists)
  {
    a.Sizes();
    a.CheckValid();
    ghost var words, bytes, heads, h := a.pool[..], a.bitmap[..], a.freeList[..], a.heap;
    assert Inv(h) && Rep(words, bytes, heads, h);
    Poke(a.pool, x, k, v);
    hide OneWord, Allocator.Core, Inv, Rep, ListsInMemory, StaysInside, Allocator.Valid, AllListBlocks, Passes;
    hide MapsClear;
    forall b | 0 <= b < NUM_SIZES ensures SameLinks(words, a.pool[..], h.lists[b]) {
      LinksSpared(words, a.pool[..], x, k, v, h.lists[b]);
    }
    forall b | 0 <= b < NUM_SIZES ensures StaysInside(a.pool[..], bytes, heads, a.poolBlocks, b) {
      DamagedStaysInside(words, bytes, a.pool[..], bytes, heads, h, b);
    }
    DamagedBalanced(words, bytes, a.pool[..], bytes, heads, h, a.freeBytes);
    ValidMapsClear(words, bytes, heads, h);
    var counts;
    ghost var lists;
    status, counts, lists := a.Check();
  }

  /** Flipping any one bit of the map: Check passes exactly if no test of a free chunk
      looks at it, that is, unless it lies in a free chunk but outside the last whole
      byte of that chunk. */
  method FlipAndCheck(a: Allocator, n: nat) returns (status: Status)
    requires a.Valid() && n < 8 * a.bitmap.Length
    modifies a.bitmap
    ensures OneBit(old(a.bitmap[..]), a.bitmap[..], n, !old(BitAt(a.bitmap[..], n)))
    ensures status == Success <==> NowhereLooked(a.heap.lists, n)
  {
    hide Allocator.Core, Inv, Rep, ListsInMemory, StaysInside, AllListBlocks, Passes, MapsClear, NowhereLooked;
    hide BitAt, OneBit, SameLinks, Settled, FreeBlocks;
    a.Sizes();
    a.CheckValid();
    LaidOut(a);
    ghost var words, bytes, heads, h := a.pool[..], a.bitmap[..], a.freeList[..], a.heap;
    SettledInv(h);
    var marked := BitTest(a.bitmap, n);
    if marked { BitClear(a.bitmap, n); } else { BitSet(a.bitmap, n); }
    ghost var flipped := a.bitmap[..];
    assert a.pool[..] == words && a.freeList[..] == heads && a.poolBlocks == |h.owner|;
    forall b | 0 <= b < NUM_SIZES
      ensures SameLinks(words, words, h.lists[b]) && StaysInside(words, flipped, heads, a.poolBlocks, b)
    {
      SameLinksSelf(words, h.lists[b]);
      DamagedStaysInside(words, bytes, words, flipped, heads, h, b);
    }
    DamagedBalanced(words, bytes, words, flipped, heads, h, a.freeBytes);
    FlippedClearIff(words, bytes, flipped, heads, h, n);
    assert ListsInMemory(words, h.lists) by { LaidOutLists(words, bytes, heads, h); }
    var counts;
    ghost var lists;
    status, counts, lists := a.Check();
    assert a.pool[..] == words && a.bitmap[..] == flipped && a.freeList[..] == heads;
  }

  lemma SettledInv(h: Heap)
    requires Settled(h)
    ensures Inv(h)
  {
  }

  lemma SameLinksSelf(words: seq<Word>, s: seq<nat>)
    ensures SameLinks(words, words, s)
  {
  }

  lemma LaidOutLists(words: seq<Word>, bytes: seq<bv8>, heads: seq<Word>, h: Heap)
    requires Rep(words, bytes, heads, h)
    ensures ListsInMemory(words, h.lists)
  {
  }

  lemma LinksSpared(a: seq<Word>, b: seq<Word>, x: nat, k: nat, v: Word, s: seq<nat>)
    requires OneWord(a, b, x, k, v) && (k == OFF_NEXT ==> x !in s)
    ensures SameLinks(a, b, s)
  {
    hide At;
  }

  /** A 32-bit difference read as a signed number. */
  function AsInt32(x: int): (r: int)
    ensures -0x8000_0000 <= x < 0x8000_0000 ==> r == x
  {
    var w := x % 0x1_0000_0000;
    if w < 0x8000_0000 then w else w - 0x1_0000_0000
  }
}
