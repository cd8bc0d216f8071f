/** The steps of each operation on the abstract heap, and that its memory still
    lays the heap out. */
module AllocatorPlans {
  import opened Dyadic
  import opened Heaps
  import opened Accounting
  import C = Cover
  import opened HeapOps
  import opened Runs
  import opened Bitmaps
  import opened PoolMemory
  import opened AllocatorFrame
  import opened CanonicalForm
  import opened Restore
  import opened SizeClasses

  lemma InitRep(words: seq<Word>, bytes: seq<bv8>, heads: seq<Word>, blocks: nat)
    requires |words| == 1024 * blocks < 0x4000_0000 && blocks <= 8 * |bytes|
    requires |heads| == NUM_SIZES && forall b :: 0 <= b < NUM_SIZES ==> heads[b] == OURNULL
    requires forall i :: 0 <= i < |bytes| ==> bytes[i] == 0xFF
    ensures Rep(words, bytes, heads, InitHeap(blocks, NUM_SIZES))
    ensures Settled(InitHeap(blocks, NUM_SIZES)) && FreeBlocks(InitHeap(blocks, NUM_SIZES)) == 0
  {
    var h := InitHeap(blocks, NUM_SIZES);
    InitSettled(blocks, NUM_SIZES);
    CountNone(h.owner, KFree, blocks);
    hide Has;
    FullByte(0xFF);
  }

  lemma ClearedRep(words: seq<Word>, a: seq<bv8>, b: seq<bv8>, heads: seq<Word>, h: Heap, lo: nat, hi: nat)
    requires Rep(words, a, heads, h) && Inv(h) && Cleared(a, b, lo, hi) && hi <= |h.owner|
    requires lo < hi ==> AllOwned(h, lo, hi, Reserved)
    ensures Rep(words, b, heads, SetOwner(h, lo, hi, Limbo)) && Inv(SetOwner(h, lo, hi, Limbo))
  {
    hide BitAt, Pow2, ListsInMemory;
    if lo < hi { SetOwnerInv(h, lo, hi, Limbo); } else { assert SetOwner(h, lo, hi, Limbo).owner == h.owner; }
  }

  lemma ReleasePlan(h: Heap, lo: nat, hi: nat)
    requires Settled(h) && hi <= |h.owner|
    requires lo < hi ==> AllOwned(h, lo, hi, Reserved)
    ensures |h.lists| > 0 && Settled(ReleaseHeap(h, lo, hi))
    ensures lo < hi ==> AllOwned(SetOwner(h, lo, hi, Limbo), lo, hi, Limbo)
    ensures FreeBlocks(ReleaseHeap(h, lo, hi)) == FreeBlocks(h) + (if lo < hi then hi - lo else 0) <= |h.owner|
    ensures ReleaseHeap(h, lo, hi) == C.ToFree(SetOwner(h, lo, hi, Limbo), lo, hi)
    ensures SetOwner(h, lo, hi, Limbo).owner == Paint(h.owner, lo, hi, Limbo)
    ensures lo <= hi ==>
              Legal(h, Call.Release(lo, hi)) && Step(h, Call.Release(lo, hi)) == ReleaseHeap(h, lo, hi)
    ensures lo > hi ==> ReleaseHeap(h, lo, hi) == h
  {
    if lo < hi {
      ReleaseEffect(h, lo, hi);
    } else {
      assert SetOwner(h, lo, hi, Limbo).owner == h.owner;
    }
    CountTotal(ReleaseHeap(h, lo, hi).owner);
  }

  /** One round of toFree. */
  lemma CutOne(h: Heap, i: nat, past: nat)
    requires |h.lists| > 0 && i < past && AllOwned(h, i, past, Limbo)
    ensures var b := C.Fit(i, past, |h.lists| - 1);
            && i + Pow2(b) <= past && Aligned(i, b) && b < |h.lists|
            && AllOwned(h, i, i + Pow2(b), Limbo)
            && AllOwned(Push(h, i, b), i + Pow2(b), past, Limbo)
            && StillInUse(h.owner, Push(h, i, b).owner)
            && C.ToFree(h, i, past) == C.ToFree(Push(h, i, b), i + Pow2(b), past)
  {
    hide C.ToFree, Paint, Pow2, Aligned;
    var b := C.Fit(i, past, |h.lists| - 1);
    assert C.Fits(i, past, b);
    ToFreeOnce(h, i, past);
  }

  /** The first chunk of a list, before and after it is taken. */
  lemma TakeHead(h: Heap, b: nat)
    requires Inv(h) && b < |h.lists| && h.lists[b] != []
    ensures var o := h.lists[b][0];
            && o in h.lists[b] && Aligned(o, b) && Pow2(b) <= FreeBlocks(h)
            && AllOwned(Take(h, o, b), o, o + Pow2(b), Limbo)
            && StillInUse(h.owner, Take(h, o, b).owner)
  {
    var o := h.lists[b][0];
    assert o in h.lists[b];
    TakeInv(h, o, b);
    FreeAtLeast(h, o, b);
  }

  lemma FrontFacts(h: Heap, off: nat, bits: nat, whole: nat)
    requires Inv(h) && bits <= whole < |h.lists| && Aligned(off, whole)
    requires AllOwned(h, off, off + Pow2(whole), Limbo)
    ensures Pow2(bits) <= Pow2(whole) && off + Pow2(whole) <= |h.owner|
    ensures var r := SetOwner(h, off, off + Pow2(bits), Chunk(off, bits, true));
            Inv(r) && AllOwned(r, off + Pow2(bits), off + Pow2(whole), Limbo) && StillInUse(h.owner, r.owner)
  {
    Pow2Monotone(bits, whole);
    AlignedWeaken(off, whole, bits);
    SetOwnerInv(h, off, off + Pow2(bits), Chunk(off, bits, true));
    SetFront(h, off, off + Pow2(bits), off + Pow2(whole), Chunk(off, bits, true));
  }

  lemma FrontRep(words: seq<Word>, a: seq<bv8>, b: seq<bv8>, heads: seq<Word>, h: Heap, off: nat, bits: nat)
    requires Rep(words, a, heads, h) && OneBit(a, b, off + Pow2(bits) - 1, true)
    requires AllOwned(h, off, off + Pow2(bits), Limbo)
    ensures Rep(words, b, heads, SetOwner(h, off, off + Pow2(bits), Chunk(off, bits, true)))
    ensures Keeps(words, words, h.owner)
  {
    hide BitAt, Pow2;
    MarkLive(a, b, h.owner, off, bits);
  }

  /** The steps of BuddyMalloc on the abstract heap. */
  lemma MallocPlan(h: Heap, bits: nat)
    requires Settled(h)
    ensures CanMalloc(h, bits) ==>
              var ret := FirstList(h.lists, bits);
              && bits <= ret < |h.lists| && h.lists[ret] != []
              && var o := h.lists[ret][0];
                 && o == MallocOff(h, bits) && o in h.lists[ret] && Aligned(o, ret) && Pow2(ret) <= FreeBlocks(h)
                 && AllOwned(Take(h, o, ret), o, o + Pow2(ret), Limbo)
                 && StillInUse(h.owner, Take(h, o, ret).owner)
                 && MallocStep(h, bits) == Carve(Take(h, o, ret), o, bits, ret)
                 && Settled(MallocStep(h, bits))
                 && FreeBlocks(MallocStep(h, bits)) == FreeBlocks(h) - Pow2(bits)
    ensures !CanMalloc(h, bits) ==> MallocStep(h, bits) == h
  {
    if CanMalloc(h, bits) {
      TakeHead(h, FirstList(h.lists, bits));
      MallocEffect(h, bits);
    }
  }

  lemma LivePointer(h: Heap, off: nat)
    requires Settled(h) && LiveAt(h, off)
    ensures IsLive(h, off, h.owner[off].bits) && Probe(h, off, 0) == h.owner[off].bits < |h.lists|
    ensures OwnersBut(h, off) == SetOwner(h, off, off + Pow2(h.owner[off].bits), Limbo).owner
    ensures FreeHeap(h, off, h.owner[off].bits) == Step(h, Call.Free(off)) == Step(h, Call.Realloc(off, 0))
  {
    ChunkFacts(h, off);
    ProbeLive(h, off, h.owner[off].bits, 0);
  }

  /** The chunk Malloc hands out is recognised, and freeing it disturbs nothing that
      was in use before. */
  lemma MallocFreePlan(h: Heap, bytes: nat)
    requires Settled(h) && CanMalloc(h, Class(bytes))
    ensures var bits := Class(bytes);
            var r, off := Step(h, Call.Malloc(bytes)), MallocOff(h, bits);
            && Settled(r) && LiveAt(r, off) && r.owner[off].bits == bits
            && !Mistaken(r, off) && Probe(r, off, 0) == bits
            && StillInUse(h.owner, OwnersBut(r, off))
            && (Canonical(h) ==> Step(r, Call.Free(off)) == h)
  {
    hide Inv, Probe, Mistaken, FreeHeap, MallocHeap, MallocOff, Class;
    var bits := Class(bytes);
    var r, off := MallocHeap(h, bits), MallocOff(h, bits);
    MallocEffect(h, bits);
    LivePointer(r, off);
    MistakenIff(r, off);
    if Canonical(h) { MallocFreeRoundTrip(h, bits); }
  }

  lemma LiveFacts(h: Heap, off: nat, bits: nat)
    requires Settled(h) && IsLive(h, off, bits)
    ensures bits < |h.lists| && off + Pow2(bits) <= |h.owner| && Whole(h.owner, Chunk(off, bits, true))
    ensures Merging(SetOwner(h, off, off + Pow2(bits), Limbo), off, bits)
  {
    Unlive(h, off, bits);
  }

  lemma LimboRep(words: seq<Word>, a: seq<bv8>, b: seq<bv8>, heads: seq<Word>, h: Heap, off: nat, bits: nat)
    requires Rep(words, a, heads, h) && OneBit(a, b, off + Pow2(bits) - 1, false)
    requires Whole(h.owner, Chunk(off, bits, true))
    ensures Rep(words, b, heads, SetOwner(h, off, off + Pow2(bits), Limbo))
  {
    hide BitAt, Pow2;
    UnmarkLive(a, b, h.owner, off, bits);
  }

  /** What Free does on the abstract heap, up to the bytes it gives back. */
  lemma FreePlan(h: Heap, off: nat, bits: nat)
    requires Settled(h) && IsLive(h, off, bits)
    ensures bits < |h.lists|
    ensures var h1 := SetOwner(h, off, off + Pow2(bits), Limbo);
            && FreeHeap(h, off, bits) == Merge(h1, off, bits)
            && StillInUse(h1.owner, h1.owner)
    ensures Settled(FreeHeap(h, off, bits))
    ensures FreeBlocks(FreeHeap(h, off, bits)) == FreeBlocks(h) + Pow2(bits) <= |h.owner|
  {
    FreeEffect(h, off, bits);
    CountTotal(FreeHeap(h, off, bits).owner);
  }

  /** One merge on the abstract heap. */
  lemma MergeStepFacts(h: Heap, off: nat, bits: nat)
    requires Merging(h, off, bits) && bits < |h.lists| - 1
    ensures var buddy := FlipBit(off, bits);
            buddy in h.lists[bits] ==>
              var low := if buddy < off then buddy else off;
              && Merging(Take(h, buddy, bits), low, bits + 1)
              && Merge(Take(h, buddy, bits), low, bits + 1) == Merge(h, off, bits)
              && StillInUse(h.owner, Take(h, buddy, bits).owner)
  {
    var buddy := FlipBit(off, bits);
    if buddy in h.lists[bits] {
      FlipBitAligned(off, bits);
      TakeInv(h, buddy, bits);
    }
  }

  lemma ShrinkRep(words: seq<Word>, a: seq<bv8>, b: seq<bv8>, c: seq<bv8>, heads: seq<Word>, h: Heap, off: nat,
                  bits: nat, newBits: nat)
    requires Rep(words, a, heads, h) && Whole(h.owner, Chunk(off, bits, true)) && Pow2(newBits) < Pow2(bits)
    requires OneBit(a, b, off + Pow2(newBits) - 1, true) && OneBit(b, c, off + Pow2(bits) - 1, false)
    ensures Rep(words, c, heads, SetOwner(SetOwner(h, off, off + Pow2(bits), Limbo),
                                          off, off + Pow2(newBits), Chunk(off, newBits, true)))
  {
    hide BitAt, Pow2;
  }

  lemma ShrinkFacts(h: Heap, off: nat, bits: nat, newBits: nat)
    requires Settled(h) && IsLive(h, off, bits) && newBits < bits
    ensures bits < |h.lists| && off + Pow2(bits) <= |h.owner| && Pow2(newBits) < Pow2(bits)
    ensures Whole(h.owner, Chunk(off, bits, true)) && LiveAt(h, off)
    ensures var r := SetOwner(SetOwner(h, off, off + Pow2(bits), Limbo),
                              off, off + Pow2(newBits), Chunk(off, newBits, true));
            && Inv(r) && AllOwned(r, off + Pow2(newBits), off + Pow2(bits), Limbo)
            && AllOwned(r, off, off + Pow2(newBits), Chunk(off, newBits, true))
            && StillInUse(OwnersBut(h, off), r.owner)
  {
    Unlive(h, off, bits);
    Pow2Strict(newBits, bits);
    FrontFacts(SetOwner(h, off, off + Pow2(bits), Limbo), off, newBits, bits);
  }

  lemma ShrinkPlan(h: Heap, off: nat, bits: nat, newBits: nat)
    requires Settled(h) && IsLive(h, off, bits) && newBits < bits
    ensures |h.lists| > 0 && Settled(ShrinkHeap(h, off, bits, newBits)) && LiveAt(h, off)
    ensures FreeBlocks(ShrinkHeap(h, off, bits, newBits)) == FreeBlocks(h) + Pow2(bits) - Pow2(newBits) <= |h.owner|
    ensures ShrinkHeap(h, off, bits, newBits) ==
              C.ToFree(SetOwner(SetOwner(h, off, off + Pow2(bits), Limbo),
                                off, off + Pow2(newBits), Chunk(off, newBits, true)),
                       off + Pow2(newBits), off + Pow2(bits))
  {
    hide C.ToFree, Pow2, Inv, CountTo;
    ShrinkEffect(h, off, bits, newBits);
    CountTotal(ShrinkHeap(h, off, bits, newBits).owner);
  }

  lemma FrontKept(a: seq<Word>, b: seq<Word>, h: Heap, off: nat, bits: nat)
    requires Keeps(a, b, h.owner) && |a| == 1024 * |h.owner|
    requires AllOwned(h, off, off + Pow2(bits), Chunk(off, bits, true))
    ensures CopyOf(a, b, off, off, Pow2(bits))
  {
  }

  lemma CopyRep(a: seq<Word>, b: seq<Word>, bytes: seq<bv8>, heads: seq<Word>, h: Heap, dst: nat, n: nat)
    requires Inv(h) && Rep(a, bytes, heads, h) && dst + n <= |h.owner|
    requires SameWordsOutside(a, b, dst, n) && forall x :: dst <= x < dst + n ==> InUse(h.owner[x])
    ensures Rep(b, bytes, heads, h)
  {
    hide BitAt;
    forall c | 0 <= c < |h.lists| ensures ListInMemory(b, h.lists[c], c) {
      forall i | 0 <= i < |h.lists[c]| ensures NodeOk(b, h.lists[c], c, i) {
        assert ListInMemory(a, h.lists[c], c);
        assert NodeOk(a, h.lists[c], c, i);
        NodeBlocks(h, c, i);
      }
    }
  }

  lemma GrowApart(r: Heap, src: nat, bits: nat, dst: nat, want: nat)
    requires Inv(r) && IsLive(r, src, bits) && IsLive(r, dst, want) && bits < want
    ensures src + Pow2(bits) <= dst || dst + Pow2(want) <= src
  {
    ChunkFacts(r, src);
    ChunkFacts(r, dst);
    if dst < src + Pow2(bits) && src < dst + Pow2(want) {
      Nested(dst, want, src, bits);
    }
  }

  lemma GrowPlan(h: Heap, src: nat, bits: nat, want: nat)
    requires Settled(h) && IsLive(h, src, bits) && want > bits
    ensures bits < |h.lists| && LiveAt(h, src) && src + Pow2(bits) <= |h.owner|
    ensures !CanMalloc(h, want) ==> MallocStep(h, want) == h
    ensures CanMalloc(h, want) ==>
              var r, dst := MallocHeap(h, want), MallocOff(h, want);
              && want < |h.lists| && MallocStep(h, want) == r && Settled(r)
              && |r.lists| == |h.lists| && |r.owner| == |h.owner|
              && IsLive(r, src, bits) && IsLive(r, dst, want) && Pow2(bits) <= Pow2(want)
              && AllOwned(r, dst, dst + Pow2(want), Chunk(dst, want, true))
              && (forall x :: dst <= x < dst + Pow2(bits) ==> InUse(r.owner[x]))
              && (src + Pow2(bits) <= dst || dst + Pow2(bits) <= src)
              && dst + Pow2(bits) <= |r.owner|
  {
    hide Inv, Pow2, Aligned, MallocHeap, MallocOff;
    ChunkFacts(h, src);
    if CanMalloc(h, want) {
      MallocEffect(h, want);
      Pow2Monotone(bits, want);
      GrowApart(MallocHeap(h, want), src, bits, MallocOff(h, want), want);
    }
  }

  /** Who owns what while a chunk is being moved from src to dst. */
  ghost predicate Moving(before: seq<Owner>, now: seq<Owner>, but: seq<Owner>, during: seq<Owner>, src: nat,
                         dst: nat, n: nat) {
    && |before| == |now| == |but| == |during| && src + n <= |before| && dst + n <= |before|
    && (src + n <= dst || dst + n <= src)
    && (forall x :: dst <= x < dst + n ==> InUse(now[x]))
    && (forall x :: src <= x < src + n ==> InUse(before[x]))
    && (forall x :: dst <= x < dst + n ==> InUse(during[x]))
    && (forall x :: 0 <= x < |but| && InUse(but[x]) ==> InUse(before[x]) && InUse(during[x]) && !(dst <= x < dst + n))
  }

  lemma MovingOwners(h: Heap, src: nat, bits: nat, want: nat)
    requires Settled(h) && IsLive(h, src, bits) && want > bits && CanMalloc(h, want)
    ensures LiveAt(h, src)
    ensures Moving(h.owner, MallocHeap(h, want).owner, OwnersBut(h, src),
                   SetOwner(MallocHeap(h, want), src, src + Pow2(bits), Limbo).owner,
                   src, MallocOff(h, want), Pow2(bits))
  {
    hide Pow2, MallocHeap, MallocOff, FirstList, CanMalloc, Inv;
    MallocEffect(h, want);
    GrowPlan(h, src, bits, want);
    LiveFacts(h, src, bits);
  }

  lemma GrowStart(h: Heap, src: nat, bits: nat, want: nat)
    requires Settled(h) && IsLive(h, src, bits) && want > bits
    ensures LiveAt(h, src)
    ensures !CanMalloc(h, want) ==> MallocStep(h, want) == h
    ensures CanMalloc(h, want) ==>
              var r := MallocHeap(h, want);
              && want < |h.lists| && MallocStep(h, want) == r && IsLive(r, src, bits)
              && Moving(h.owner, r.owner, OwnersBut(h, src), SetOwner(r, src, src + Pow2(bits), Limbo).owner,
                        src, MallocOff(h, want), Pow2(bits))
  {
    hide Moving, Pow2, MallocHeap, MallocOff, FirstList;
    GrowPlan(h, src, bits, want);
    if CanMalloc(h, want) { MovingOwners(h, src, bits, want); }
  }

  lemma MovedWords(w0: seq<Word>, w1: seq<Word>, w2: seq<Word>, w3: seq<Word>,
                   before: seq<Owner>, now: seq<Owner>, but: seq<Owner>, during: seq<Owner>, src: nat, dst: nat, n: nat)
    requires Moving(before, now, but, during, src, dst, n) && |w0| == 1024 * |before|
    requires Keeps(w0, w1, before) && CopyOf(w1, w2, src, dst, n) && SameWordsOutside(w1, w2, dst, n)
    requires Keeps(w2, w3, during)
    ensures Keeps(w0, w3, but) && CopyOf(w0, w3, src, dst, n)
  {
    hide InUse, At;
  }

  // ----- What Realloc promises -----
  ghost predicate Resized(h: Heap, r: Heap, off: nat, size: nat) {
    Inv(h) && LiveAt(h, off) && r == Step(h, Call.Realloc(off, size))
  }

  ghost function ResizeStatus(h: Heap, off: nat, size: nat): (r: Status)
    requires LiveAt(h, off)
  {
    if Class(size) <= h.owner[off].bits then Success
    else if Class(size) > NUM_SIZES then NoResources
    else if CanMalloc(h, Class(size)) then Success
    else NoMemory
  }

  /** Success is reported exactly if the pointer handed back leads to a live chunk of
      the wanted class. */
  lemma ResizeStatusMeans(h: Heap, off: nat, size: nat)
    requires Settled(h) && LiveAt(h, off) && size > 0 && |h.lists| == NUM_SIZES
    ensures ResizeStatus(h, off, size) == Success
       <==> IsLive(Step(h, Call.Realloc(off, size)), ReallocOff(h, off, size), Class(size))
    ensures ResizeStatus(h, off, size) != Success ==> Step(h, Call.Realloc(off, size)) == h
  {
    hide Inv, Step, ReallocOff, Class, FreeBlocks;
    ReallocStepMeans(h, off, size);
    if Class(size) > NUM_SIZES { CannotMalloc(h, Class(size)); }
  }

  /** The new chunk starts with what the old chunk held, up to the smaller of the
      two sizes, and no other live chunk or reserved block is written. */
  ghost predicate ContentsKept(h: Heap, a: seq<Word>, b: seq<Word>, off: nat, size: nat)
    requires LiveAt(h, off)
  {
    && CopyOf(a, b, off, ReallocOff(h, off, size),
              Pow2(if Class(size) < h.owner[off].bits then Class(size) else h.owner[off].bits))
    && Keeps(a, b, OwnersBut(h, off))
  }

  lemma SameKept(h: Heap, words: seq<Word>, off: nat, bits: nat)
    requires Settled(h) && IsLive(h, off, bits) && |words| == 1024 * |h.owner|
    ensures CopyOf(words, words, off, off, Pow2(bits)) && LiveAt(h, off) && Keeps(words, words, OwnersBut(h, off))
  {
    LiveFacts(h, off, bits);
  }

  lemma ShrinkSpec(h: Heap, r: Heap, a: seq<Word>, b: seq<Word>, off: nat, bits: nat, size: nat)
    requires Settled(h) && IsLive(h, off, bits) && size > 0 && Class(size) <= bits
    requires Class(size) < bits ==> |h.lists| > 0 && r == ShrinkHeap(h, off, bits, Class(size))
    requires Class(size) == bits ==> r == h
    requires Keeps(a, b, OwnersBut(h, off)) && CopyOf(a, b, off, off, Pow2(Class(size)))
    ensures Resized(h, r, off, size) && ResizeStatus(h, off, size) == Success
    ensures ReallocOff(h, off, size) == off && ContentsKept(h, a, b, off, size)
  {
    hide Pow2, Keeps, CopyOf, ShrinkHeap, Class;
    ChunkFacts(h, off);
  }

  lemma GrowFails(h: Heap, off: nat, bits: nat, size: nat)
    requires Settled(h) && IsLive(h, off, bits) && size > 0 && Class(size) > bits && |h.lists| == NUM_SIZES
    ensures LiveAt(h, off)
    ensures ResizeStatus(h, off, size) == if Class(size) > NUM_SIZES then NoResources
                                          else if CanMalloc(h, Class(size)) then Success else NoMemory
    ensures ResizeStatus(h, off, size) == Success <==> CanMalloc(h, Class(size))
    ensures !CanMalloc(h, Class(size)) ==> Resized(h, h, off, size)
  {
    ChunkFacts(h, off);
  }

  lemma GrowSpec(h: Heap, r: Heap, a: seq<Word>, b: seq<Word>, off: nat, bits: nat, size: nat)
    requires Settled(h) && IsLive(h, off, bits) && size > 0 && Class(size) > bits && CanMalloc(h, Class(size))
    requires bits < |MallocHeap(h, Class(size)).lists| && r == FreeHeap(MallocHeap(h, Class(size)), off, bits)
    requires Keeps(a, b, OwnersBut(h, off)) && CopyOf(a, b, off, MallocOff(h, Class(size)), Pow2(bits))
    ensures Resized(h, r, off, size)
    ensures ReallocOff(h, off, size) == MallocOff(h, Class(size)) && ContentsKept(h, a, b, off, size)
  {
    hide Pow2, Keeps, CopyOf, MallocHeap, FreeHeap;
    ChunkFacts(h, off);
  }
}
