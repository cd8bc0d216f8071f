/** What Malloc, Free, Realloc and Release do to the abstract heap. */
module HeapOps {
  import opened Dyadic
  import opened Heaps
  import opened Accounting
  import opened Cover

  /** Bytes in n blocks (minBits is 12). */
  function Bytes(n: int): (r: int) {
    4096 * n
  }

  /** The smallest size class that holds `bytes` bytes. */
  function Class(bytes: nat): (b: nat)
    ensures bytes <= Bytes(Pow2(b))
    ensures b > 0 ==> bytes > Bytes(Pow2(b - 1))
  {
    if bytes <= Bytes(1) then 0 else 1 + Class((bytes + 1) / 2)
  }

  /** The first size class from b on with a free chunk; |lists| or more if there is none. */
  function FirstList(lists: seq<seq<nat>>, b: nat): (r: nat)
    ensures r >= b
    ensures r < |lists| ==> lists[r] != []
    ensures forall c :: b <= c < r && c < |lists| ==> lists[c] == []
    ensures r > b ==> r <= |lists|
    decreases |lists| - b
  {
    if b >= |lists| || lists[b] != [] then b else FirstList(lists, b + 1)
  }

  /** Cuts a live chunk of class `bits` from the front of the limbo range
      off .. off + Pow2(whole) and frees the rest. */
  function Carve(h: Heap, off: nat, bits: nat, whole: nat): (r: Heap)
    requires |h.lists| > 0
  {
    ToFree(SetOwner(h, off, off + Pow2(bits), Chunk(off, bits, true)), off + Pow2(bits), off + Pow2(whole))
  }

  predicate CanMalloc(h: Heap, bits: nat) {
    FirstList(h.lists, bits) < |h.lists|
  }

  function MallocOff(h: Heap, bits: nat): (off: nat)
    requires CanMalloc(h, bits)
  {
    h.lists[FirstList(h.lists, bits)][0]
  }

  function MallocHeap(h: Heap, bits: nat): (r: Heap)
    requires CanMalloc(h, bits)
  {
    var ret := FirstList(h.lists, bits);
    Carve(Take(h, MallocOff(h, bits), ret), MallocOff(h, bits), bits, ret)
  }

  /** Frees the limbo chunk off .. off + Pow2(bits), merging it with its buddy
      as long as the buddy is wholly free. */
  function Merge(h: Heap, off: nat, bits: nat): (r: Heap)
    requires bits < |h.lists|
    decreases |h.lists| - bits
  {
    var buddy := FlipBit(off, bits);
    if bits < |h.lists| - 1 && buddy in h.lists[bits] then
      Merge(Take(h, buddy, bits), if buddy < off then buddy else off, bits + 1)
    else
      Push(h, off, bits)
  }

  function FreeHeap(h: Heap, off: nat, bits: nat): (r: Heap)
    requires bits < |h.lists|
  {
    Merge(SetOwner(h, off, off + Pow2(bits), Limbo), off, bits)
  }

  /** Shrinks a live chunk in place. */
  function ShrinkHeap(h: Heap, off: nat, bits: nat, newBits: nat): (r: Heap)
    requires |h.lists| > 0
  {
    Carve(SetOwner(h, off, off + Pow2(bits), Limbo), off, newBits, bits)
  }

  function ReleaseHeap(h: Heap, lo: nat, hi: nat): (r: Heap)
    requires |h.lists| > 0
  {
    ToFree(SetOwner(h, lo, hi, Limbo), lo, hi)
  }

  // ----- Effects -----

  /** off .. off + Pow2(bits) is a live chunk, the rest of off .. off + Pow2(whole)
      is cut into free chunks, and nothing else changed hands. */
  ghost predicate Carved(h: Heap, r: Heap, off: nat, bits: nat, whole: nat) {
    && SameOutside(h, r, off, off + Pow2(whole))
    && Pow2(bits) <= Pow2(whole)
    && AllOwned(r, off, off + Pow2(bits), Chunk(off, bits, true))
    && off + Pow2(whole) <= |r.owner|
    && forall x :: off + Pow2(bits) <= x < off + Pow2(whole) ==>
         CutFrom(r.owner[x], off + Pow2(bits), off + Pow2(whole), |r.lists|)
  }

  lemma CarveOwners(h: Heap, off: nat, bits: nat, whole: nat)
    requires bits <= whole < |h.lists| && off + Pow2(whole) <= |h.owner|
    ensures Carved(h, Carve(h, off, bits, whole), off, bits, whole)
  {
    hide ToFree, Pow2;
    Pow2Monotone(bits, whole);
    ToFreeOwners(SetOwner(h, off, off + Pow2(bits), Chunk(off, bits, true)), off + Pow2(bits), off + Pow2(whole));
  }

  lemma CarveCount(h: Heap, off: nat, bits: nat, whole: nat)
    requires bits <= whole < |h.lists| && AllOwned(h, off, off + Pow2(whole), Limbo)
    ensures FreeBlocks(Carve(h, off, bits, whole)) == FreeBlocks(h) + Pow2(whole) - Pow2(bits)
  {
    hide ToFree, Pow2;
    Pow2Monotone(bits, whole);
    SetFront(h, off, off + Pow2(bits), off + Pow2(whole), Chunk(off, bits, true));
    ToFreeCount(SetOwner(h, off, off + Pow2(bits), Chunk(off, bits, true)), off + Pow2(bits), off + Pow2(whole));
  }

  /** Giving the front of a limbo range an owner leaves the rest of it in limbo. */
  lemma SetFront(h: Heap, lo: nat, mid: nat, hi: nat, t: Owner)
    requires lo <= mid <= hi && AllOwned(h, lo, hi, Limbo) && KindOf(t) == KLive
    ensures AllOwned(SetOwner(h, lo, mid, t), mid, hi, Limbo)
    ensures FreeBlocks(SetOwner(h, lo, mid, t)) == FreeBlocks(h)
  {
    CountPaint(h.owner, lo, mid, t, KLimbo, KFree);
  }

  lemma CarveInv(h: Heap, off: nat, bits: nat, whole: nat)
    requires Inv(h) && bits <= whole < |h.lists| && Aligned(off, whole)
    requires AllOwned(h, off, off + Pow2(whole), Limbo)
    ensures Inv(Carve(h, off, bits, whole))
  {
    hide ToFree, Pow2;
    Pow2Monotone(bits, whole);
    AlignedWeaken(off, whole, bits);
    SetOwnerInv(h, off, off + Pow2(bits), Chunk(off, bits, true));
    SetFront(h, off, off + Pow2(bits), off + Pow2(whole), Chunk(off, bits, true));
    ToFreeInv(SetOwner(h, off, off + Pow2(bits), Chunk(off, bits, true)), off + Pow2(bits), off + Pow2(whole));
  }

  /** The chunk Malloc hands out: it was part of one free chunk, and the rest of
      that chunk is free again. */
  lemma MallocEffect(h: Heap, bits: nat)
    requires Settled(h) && CanMalloc(h, bits)
    ensures Settled(MallocHeap(h, bits))
    ensures var ret := FirstList(h.lists, bits); var off := MallocOff(h, bits); var r := MallocHeap(h, bits);
            && IsFree(h, off, ret) && Whole(h.owner, Chunk(off, ret, false))
            && Carved(h, r, off, bits, ret)
    ensures FreeBlocks(MallocHeap(h, bits)) == FreeBlocks(h) - Pow2(bits)
  {
    hide Pow2, Carve;
    var ret, off := FirstList(h.lists, bits), MallocOff(h, bits);
    assert off in h.lists[ret];
    TakeInv(h, off, ret);
    TakeCount(h, off, ret);
    CarveOwners(Take(h, off, ret), off, bits, ret);
    CarveCount(Take(h, off, ret), off, bits, ret);
    CarveInv(Take(h, off, ret), off, bits, ret);
  }

  /** Blocks lo .. hi become free, free blocks stay free, all others keep their owner. */
  ghost predicate Frees(h: Heap, r: Heap, lo: int, hi: int) {
    && |r.owner| == |h.owner| && |r.lists| == |h.lists|
    && forall x :: 0 <= x < |h.owner| ==>
         if lo <= x < hi || KindOf(h.owner[x]) == KFree then KindOf(r.owner[x]) == KFree
         else r.owner[x] == h.owner[x]
  }

  lemma {:induction false} MergeEffect(h: Heap, off: nat, bits: nat)
    requires Inv(h) && bits < |h.lists| && Aligned(off, bits)
    requires AllOwned(h, off, off + Pow2(bits), Limbo)
    ensures Inv(Merge(h, off, bits))
    ensures Frees(h, Merge(h, off, bits), off, off + Pow2(bits))
    ensures FreeBlocks(Merge(h, off, bits)) == FreeBlocks(h) + Pow2(bits)
    decreases |h.lists| - bits
  {
    var buddy := FlipBit(off, bits);
    if bits < |h.lists| - 1 && buddy in h.lists[bits] {
      FlipBitAligned(off, bits);
      TakeInv(h, buddy, bits);
      TakeCount(h, buddy, bits);
      MergeEffect(Take(h, buddy, bits), if buddy < off then buddy else off, bits + 1);
    } else {
      PushInv(h, off, bits);
      PushCount(h, off, bits);
    }
  }

  /** A live chunk can be put in limbo. */
  lemma Unlive(h: Heap, off: nat, bits: nat)
    requires Inv(h) && IsLive(h, off, bits)
    ensures bits < |h.lists| && off + Pow2(bits) <= |h.owner| && Aligned(off, bits)
    ensures Whole(h.owner, Chunk(off, bits, true))
    ensures Inv(SetOwner(h, off, off + Pow2(bits), Limbo))
    ensures FreeBlocks(SetOwner(h, off, off + Pow2(bits), Limbo)) == FreeBlocks(h)
  {
    ChunkFacts(h, off);
    SetOwnerInv(h, off, off + Pow2(bits), Limbo);
    CountPaint(h.owner, off, off + Pow2(bits), Limbo, KLive, KFree);
  }

  lemma FreeEffect(h: Heap, off: nat, bits: nat)
    requires Settled(h) && IsLive(h, off, bits)
    ensures bits < |h.lists| && off + Pow2(bits) <= |h.owner|
    ensures Settled(FreeHeap(h, off, bits))
    ensures Frees(h, FreeHeap(h, off, bits), off, off + Pow2(bits))
    ensures FreeBlocks(FreeHeap(h, off, bits)) == FreeBlocks(h) + Pow2(bits)
  {
    Unlive(h, off, bits);
    MergeEffect(SetOwner(h, off, off + Pow2(bits), Limbo), off, bits);
  }

  lemma ShrinkEffect(h: Heap, off: nat, bits: nat, newBits: nat)
    requires Settled(h) && IsLive(h, off, bits) && newBits <= bits
    ensures bits < |h.lists| && off + Pow2(bits) <= |h.owner|
    ensures Settled(ShrinkHeap(h, off, bits, newBits))
    ensures Carved(h, ShrinkHeap(h, off, bits, newBits), off, newBits, bits)
    ensures FreeBlocks(ShrinkHeap(h, off, bits, newBits)) == FreeBlocks(h) + Pow2(bits) - Pow2(newBits)
  {
    Unlive(h, off, bits);
    CarveOwners(SetOwner(h, off, off + Pow2(bits), Limbo), off, newBits, bits);
    CarveCount(SetOwner(h, off, off + Pow2(bits), Limbo), off, newBits, bits);
    CarveInv(SetOwner(h, off, off + Pow2(bits), Limbo), off, newBits, bits);
  }

  lemma ReleaseEffect(h: Heap, lo: nat, hi: nat)
    requires Settled(h) && lo <= hi && AllOwned(h, lo, hi, Reserved)
    ensures Settled(ReleaseHeap(h, lo, hi))
    ensures SameOutside(h, ReleaseHeap(h, lo, hi), lo, hi)
    ensures forall x :: lo <= x < hi ==> CutFrom(ReleaseHeap(h, lo, hi).owner[x], lo, hi, |h.lists|)
    ensures FreeBlocks(ReleaseHeap(h, lo, hi)) == FreeBlocks(h) + (hi - lo)
  {
    SetOwnerInv(h, lo, hi, Limbo);
    CountPaint(h.owner, lo, hi, Limbo, KReserved, KFree);
    ToFreeOwners(SetOwner(h, lo, hi, Limbo), lo, hi);
    ToFreeCount(SetOwner(h, lo, hi, Limbo), lo, hi);
    ToFreeInv(SetOwner(h, lo, hi, Limbo), lo, hi);
  }
}
