/** Full coalescing: no two buddies below the top size are both free.

    In such a state the free chunks are determined by the set of free blocks
    alone, and allocation fails only if there really is no room. */
module CanonicalForm {
  import opened Dyadic
  import opened Heaps
  import opened Accounting
  import opened Cover
  import opened HeapOps

  ghost predicate FreePair(h: Heap, o: nat, b: nat) {
    IsFree(h, o, b) && IsFree(h, FlipBit(o, b), b)
  }

  ghost predicate Canonical(h: Heap) {
    forall o: nat, b: nat :: b + 1 < |h.lists| ==> !FreePair(h, o, b)
  }

  /** o .. o + Pow2(b) is an aligned run of blocks that are all free. */
  ghost predicate FreeRun(h: Heap, o: nat, b: nat) {
    && Aligned(o, b) && o + Pow2(b) <= |h.owner|
    && forall x :: o <= x < o + Pow2(b) ==> KindOf(h.owner[x]) == KFree
  }

  /** The chunk that holds block x, if it is at least as big as an aligned run
      that contains x, holds the whole run; if it is exactly as big, it is the run. */
  lemma ChunkHoldsRun(h: Heap, x: nat, o: nat, b: nat)
    requires Inv(h) && x < |h.owner| && h.owner[x].Chunk? && h.owner[x].bits >= b
    requires Aligned(o, b) && Within(x, o, b)
    ensures o + Pow2(b) <= |h.owner| && AllOwned(h, o, o + Pow2(b), h.owner[x])
    ensures h.owner[x].bits == b ==> h.owner[x].off == o
  {
    ChunkFacts(h, x);
    var t := h.owner[x];
    Nested(t.off, t.bits, o, b);
  }

  /** In canonical form an aligned free run lies inside one free chunk. */
  lemma {:induction false} FreeRunInOneChunk(h: Heap, o: nat, b: nat)
    requires Inv(h) && Canonical(h) && b < |h.lists| && FreeRun(h, o, b)
    ensures h.owner[o].Chunk? && !h.owner[o].live && h.owner[o].bits >= b
    ensures AllOwned(h, o, o + Pow2(b), h.owner[o])
    decreases b
  {
    if b > 0 {
      var c := b - 1;
      var m := o + Pow2(c);
      AlignedSum(o, b, c);
      AlignedWeaken(o, b, c);
      FreeRunInOneChunk(h, o, c);
      FreeRunInOneChunk(h, m, c);
      ChunkHoldsRun(h, o, o, c);
      ChunkHoldsRun(h, m, m, c);
      if h.owner[m].bits >= b {
        ChunkHoldsRun(h, m, o, b);
      } else if h.owner[o].bits >= b {
        ChunkHoldsRun(h, o, o, b);
      } else {
        FlipBitAligned(o, c);
        assert FreePair(h, o, c);
        assert false;
      }
    }
  }

  ghost predicate SameFreeBlocks(g: Heap, h: Heap) {
    && |g.owner| == |h.owner| && |g.lists| == |h.lists|
    && forall x :: 0 <= x < |h.owner| ==> (KindOf(g.owner[x]) == KFree <==> KindOf(h.owner[x]) == KFree)
  }

  lemma ChunkNoBigger(g: Heap, h: Heap, x: nat)
    requires Inv(g) && Inv(h) && Canonical(h) && SameFreeBlocks(g, h)
    requires x < |g.owner| && KindOf(g.owner[x]) == KFree
    ensures h.owner[x].Chunk? && h.owner[x].bits >= g.owner[x].bits
  {
    var t := g.owner[x];
    ChunkFacts(g, x);
    assert FreeRun(h, t.off, t.bits);
    FreeRunInOneChunk(h, t.off, t.bits);
  }

  /** The free chunks are a function of the set of free blocks. */
  lemma CanonicalUnique(g: Heap, h: Heap, x: nat)
    requires Inv(g) && Inv(h) && Canonical(g) && Canonical(h) && SameFreeBlocks(g, h)
    requires x < |g.owner| && KindOf(g.owner[x]) == KFree
    ensures g.owner[x] == h.owner[x]
  {
    ChunkNoBigger(g, h, x);
    ChunkNoBigger(h, g, x);
    ChunkFacts(g, x);
    ChunkHoldsRun(h, x, g.owner[x].off, g.owner[x].bits);
  }

  /** Malloc finds room exactly when an aligned run of free blocks of the
      requested size exists. */
  lemma MallocComplete(h: Heap, bits: nat)
    requires Inv(h) && Canonical(h)
    ensures CanMalloc(h, bits) <==> bits < |h.lists| && exists o: nat :: FreeRun(h, o, bits)
  {
    if CanMalloc(h, bits) {
      MallocRoom(h, bits);
    }
    if bits < |h.lists| && exists o: nat :: FreeRun(h, o, bits) {
      var o: nat :| FreeRun(h, o, bits);
      FreeRunInOneChunk(h, o, bits);
      ChunkFacts(h, o);
      assert IsFree(h, h.owner[o].off, h.owner[o].bits);
    }
  }

  /** Whatever the state, a chunk that Malloc picks is a free run. */
  lemma MallocRoom(h: Heap, bits: nat)
    requires Inv(h) && CanMalloc(h, bits)
    ensures bits < |h.lists| && FreeRun(h, MallocOff(h, bits), bits)
  {
    var ret, off := FirstList(h.lists, bits), MallocOff(h, bits);
    assert off in h.lists[ret];
    TakeInv(h, off, ret);
    AlignedWeaken(off, ret, bits);
    Pow2Monotone(bits, ret);
  }

  // ----- Which operations keep canonical form -----

  /** Two pieces cut from one range are never buddies. */
  lemma CutsAreNoBuddies(h: Heap, o: nat, b: nat, lo: nat, past: nat)
    requires Inv(h) && b + 1 < |h.lists| && o < |h.owner| && FlipBit(o, b) < |h.owner|
    requires CutFrom(h.owner[o], lo, past, |h.lists|)
    requires CutFrom(h.owner[FlipBit(o, b)], lo, past, |h.lists|)
    ensures !FreePair(h, o, b)
  {
    if FreePair(h, o, b) {
      ChunkFacts(h, o);
      FlipBitAligned(o, b);
    }
  }

  lemma CarvedCanonical(h: Heap, r: Heap, off: nat, bits: nat, whole: nat)
    requires Canonical(h) && Inv(r) && Carved(h, r, off, bits, whole)
    requires Aligned(off, whole) && bits <= whole
    ensures Canonical(r)
  {
    forall o: nat, b: nat | b + 1 < |r.lists| ensures !FreePair(r, o, b) {
      CarvedNoPair(h, r, off, bits, whole, o, b);
    }
  }

  lemma CarvedNoPair(h: Heap, r: Heap, off: nat, bits: nat, whole: nat, o: nat, b: nat)
    requires Canonical(h) && Inv(r) && Carved(h, r, off, bits, whole)
    requires Aligned(off, whole) && bits <= whole && b + 1 < |r.lists|
    ensures !FreePair(r, o, b)
  {
    if FreePair(r, o, b) {
      var p := FlipBit(o, b);
      FlipBitInvolution(o, b);
      assert !FreePair(h, o, b);
      if Within(o, off, whole) {
        PieceStaysInside(r, off, bits, whole, o, b);
        CutsAreNoBuddies(r, o, b, off + Pow2(bits), off + Pow2(whole));
      } else if Within(p, off, whole) {
        PieceStaysInside(r, off, bits, whole, p, b);
      }
    }
  }

  /** The buddy of a piece cut from an aligned range is in that range too. */
  lemma PieceStaysInside(r: Heap, off: nat, bits: nat, whole: nat, o: nat, b: nat)
    requires Inv(r) && Aligned(off, whole) && bits <= whole && IsFree(r, o, b) && Within(o, off, whole)
    requires CutFrom(r.owner[o], off + Pow2(bits), off + Pow2(whole), |r.lists|)
    ensures Within(FlipBit(o, b), off, whole)
    ensures FlipBit(o, b) + Pow2(b) <= off + Pow2(whole)
  {
    ChunkFacts(r, o);
    if b >= whole { Pow2Monotone(whole, b); }
    NestedBuddy(off, whole, o, b);
  }

  lemma MallocCanonical(h: Heap, bits: nat)
    requires Settled(h) && Canonical(h) && CanMalloc(h, bits)
    ensures Canonical(MallocHeap(h, bits))
  {
    MallocEffect(h, bits);
    CarvedCanonical(h, MallocHeap(h, bits), MallocOff(h, bits), bits, FirstList(h.lists, bits));
  }

  lemma ShrinkCanonical(h: Heap, off: nat, bits: nat, newBits: nat)
    requires Settled(h) && Canonical(h) && IsLive(h, off, bits) && newBits <= bits
    ensures bits < |h.lists| && Canonical(ShrinkHeap(h, off, bits, newBits))
  {
    ChunkFacts(h, off);
    ShrinkEffect(h, off, bits, newBits);
    CarvedCanonical(h, ShrinkHeap(h, off, bits, newBits), off, newBits, bits);
  }

  lemma PushCanonical(h: Heap, o: nat, b: nat)
    requires Inv(h) && Canonical(h) && b < |h.lists| && Aligned(o, b) && o + Pow2(b) <= |h.owner|
    requires b + 1 < |h.lists| ==> FlipBit(o, b) !in h.lists[b]
    ensures Canonical(Push(h, o, b))
  {
    var r := Push(h, o, b);
    FlipBitAligned(o, b);
    assert b + 1 < |h.lists| ==> !IsFree(h, FlipBit(o, b), b);
    forall p: nat, c: nat | c + 1 < |r.lists| ensures !FreePair(r, p, c) {
      FlipBitInvolution(p, c);
      assert !FreePair(h, p, c);
    }
  }

  lemma TakeCanonical(h: Heap, o: nat, b: nat)
    requires Canonical(h) && b < |h.lists| && o in h.lists[b]
    ensures Canonical(Take(h, o, b))
  {
    var r := Take(h, o, b);
    forall p: nat, c: nat | c + 1 < |r.lists| ensures !FreePair(r, p, c) {
      assert !FreePair(h, p, c);
    }
  }

  lemma {:induction false} MergeCanonical(h: Heap, off: nat, bits: nat)
    requires Inv(h) && Canonical(h) && bits < |h.lists| && Aligned(off, bits)
    requires AllOwned(h, off, off + Pow2(bits), Limbo)
    ensures Canonical(Merge(h, off, bits))
    decreases |h.lists| - bits
  {
    var buddy := FlipBit(off, bits);
    if bits < |h.lists| - 1 && buddy in h.lists[bits] {
      FlipBitAligned(off, bits);
      TakeInv(h, buddy, bits);
      TakeCanonical(h, buddy, bits);
      MergeCanonical(Take(h, buddy, bits), if buddy < off then buddy else off, bits + 1);
    } else {
      PushCanonical(h, off, bits);
    }
  }

  lemma FreeCanonical(h: Heap, off: nat, bits: nat)
    requires Settled(h) && Canonical(h) && IsLive(h, off, bits)
    ensures bits < |h.lists| && Canonical(FreeHeap(h, off, bits))
  {
    Unlive(h, off, bits);
    var h1 := SetOwner(h, off, off + Pow2(bits), Limbo);
    forall p: nat, c: nat | c + 1 < |h1.lists| ensures !FreePair(h1, p, c) {
      assert !FreePair(h, p, c);
    }
    MergeCanonical(h1, off, bits);
  }
}
