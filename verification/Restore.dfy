/** Malloc followed by Free of the result gives back the very same heap:
    every list in the same order, every block with the same owner. */
module Restore {
  import opened Dyadic
  import opened Heaps
  import opened Cover
  import opened HeapOps
  import opened CanonicalForm

  /** Splitting a chunk leaves one free chunk of each class j .. whole - 1 behind. */
  function Stairs(h: Heap, off: nat, j: nat, whole: nat): (r: Heap)
    requires j <= whole < |h.lists|
    decreases whole - j
  {
    if j == whole then h else Stairs(Push(h, off + Pow2(j), j), off, j + 1, whole)
  }

  lemma FirstStair(off: nat, j: nat, whole: nat, top: nat)
    requires j < whole <= top && Aligned(off, whole)
    ensures off + Pow2(j) < off + Pow2(whole) && Pow2(j + 1) == Pow2(j) + Pow2(j)
    ensures Fit(off + Pow2(j), off + Pow2(whole), top) == j
  {
    Pow2Strict(j, whole);
    AlignedSum(off, whole, j);
    FitUnique(off + Pow2(j), off + Pow2(whole), top, j);
  }

  lemma ToFreeOnce(h: Heap, i: nat, past: nat)
    requires |h.lists| > 0 && i < past
    ensures var b := Fit(i, past, |h.lists| - 1);
            b < |h.lists| && ToFree(h, i, past) == ToFree(Push(h, i, b), i + Pow2(b), past)
  {
  }

  lemma ToFreeNone(h: Heap, i: nat)
    requires |h.lists| > 0
    ensures ToFree(h, i, i) == h
  {
  }

  lemma {:induction false} ToFreeIsStairs(h: Heap, off: nat, j: nat, whole: nat)
    requires j <= whole < |h.lists| && Aligned(off, whole)
    ensures ToFree(h, off + Pow2(j), off + Pow2(whole)) == Stairs(h, off, j, whole)
    decreases whole - j
  {
    hide Paint, Fit, Aligned, Pow2, ToFree;
    if j < whole {
      FirstStair(off, j, whole, |h.lists| - 1);
      ToFreeOnce(h, off + Pow2(j), off + Pow2(whole));
      ToFreeIsStairs(Push(h, off + Pow2(j), j), off, j + 1, whole);
    } else {
      ToFreeNone(h, off + Pow2(j));
    }
  }

  lemma PushCommutes(h: Heap, o: nat, b: nat, p: nat, c: nat)
    requires b < |h.lists| && c < |h.lists| && b != c && o + Pow2(b) <= p
    ensures Push(Push(h, o, b), p, c) == Push(Push(h, p, c), o, b)
  {
    assert Push(Push(h, o, b), p, c).owner == Push(Push(h, p, c), o, b).owner;
    assert Push(Push(h, o, b), p, c).lists == Push(Push(h, p, c), o, b).lists;
  }

  lemma {:induction false} StairsPush(h: Heap, off: nat, k: nat, j: nat, whole: nat)
    requires k < j <= whole < |h.lists|
    ensures |Stairs(h, off, j, whole).lists| == |h.lists|
    ensures Stairs(Push(h, off + Pow2(k), k), off, j, whole) == Push(Stairs(h, off, j, whole), off + Pow2(k), k)
    decreases whole - j
  {
    if j < whole {
      Pow2Strict(k, j);
      StairsPush(Push(h, off + Pow2(j), j), off, k, j + 1, whole);
      PushCommutes(h, off + Pow2(k), k, off + Pow2(j), j);
    }
  }

  /** The stairs touch only the lists and blocks above their first step. */
  lemma {:induction false} StairsFrame(h: Heap, off: nat, j: nat, whole: nat)
    requires j <= whole < |h.lists|
    ensures |Stairs(h, off, j, whole).lists| == |h.lists| && |Stairs(h, off, j, whole).owner| == |h.owner|
    ensures forall c :: 0 <= c < j ==> Stairs(h, off, j, whole).lists[c] == h.lists[c]
    ensures forall x :: 0 <= x < off + Pow2(j) && x < |h.owner| ==> Stairs(h, off, j, whole).owner[x] == h.owner[x]
    decreases whole - j
  {
    if j < whole {
      StairsFrame(Push(h, off + Pow2(j), j), off, j + 1, whole);
    }
  }

  lemma TakeUndoesPush(h: Heap, o: nat, b: nat)
    requires b < |h.lists| && AllOwned(h, o, o + Pow2(b), Limbo)
    ensures o in Push(h, o, b).lists[b] && Take(Push(h, o, b), o, b) == h
  {
    var g := Push(h, o, b);
    assert g.lists[b][0] == o;
    assert Without(g.lists[b], o) == h.lists[b];
    assert Take(g, o, b).owner == h.owner;
    assert Take(g, o, b).lists == h.lists;
  }

  /** A chunk whose upper buddy was just pushed merges with it. */
  lemma MergeTakesPushed(h: Heap, off: nat, j: nat)
    requires j + 1 < |h.lists| && Aligned(off, j) && Aligned(off, j + 1)
    requires AllOwned(h, off + Pow2(j), off + 2 * Pow2(j), Limbo)
    ensures Merge(Push(h, off + Pow2(j), j), off, j) == Merge(h, off, j + 1)
  {
    hide Pow2, Paint;
    FlipBitAligned(off, j);
    TakeUndoesPush(h, off + Pow2(j), j);
  }

  /** One merge takes the lowest step of the stairs. */
  lemma ClimbOne(h: Heap, off: nat, j: nat, whole: nat)
    requires j < whole < |h.lists| && Aligned(off, j) && Aligned(off, j + 1)
    requires AllOwned(h, off, off + 2 * Pow2(j), Limbo)
    ensures |Stairs(h, off, j, whole).lists| == |Stairs(h, off, j + 1, whole).lists| == |h.lists|
    ensures Merge(Stairs(h, off, j, whole), off, j) == Merge(Stairs(h, off, j + 1, whole), off, j + 1)
  {
    StairsFrame(h, off, j + 1, whole);
    StairsPush(h, off, j, j + 1, whole);
    MergeTakesPushed(Stairs(h, off, j + 1, whole), off, j);
  }

  /** Freeing the front walks back up the stairs. */
  lemma {:induction false} MergeClimbs(h: Heap, off: nat, j: nat, whole: nat)
    requires j <= whole < |h.lists| && Aligned(off, whole)
    requires AllOwned(h, off, off + Pow2(whole), Limbo)
    ensures |Stairs(h, off, j, whole).lists| == |h.lists|
    ensures Merge(Stairs(h, off, j, whole), off, j) == Merge(h, off, whole)
    decreases whole - j
  {
    if j < whole {
      Pow2Strict(j, whole);
      AlignedWeaken(off, whole, j + 1);
      AlignedWeaken(off, whole, j);
      ClimbOne(h, off, j, whole);
      MergeClimbs(h, off, j + 1, whole);
    }
  }

  lemma {:induction false} StairsSetOwner(h: Heap, off: nat, j: nat, whole: nat, t: Owner)
    requires j <= whole < |h.lists|
    ensures SetOwner(Stairs(h, off, j, whole), off, off + Pow2(j), t)
         == Stairs(SetOwner(h, off, off + Pow2(j), t), off, j, whole)
  {
    StairsSetFront(h, off, off + Pow2(j), j, whole, t);
  }

  lemma {:induction false} StairsSetFront(h: Heap, off: nat, hi: nat, j: nat, whole: nat, t: Owner)
    requires j <= whole < |h.lists| && hi <= off + Pow2(j)
    ensures SetOwner(Stairs(h, off, j, whole), off, hi, t) == Stairs(SetOwner(h, off, hi, t), off, j, whole)
    decreases whole - j
  {
    if j < whole {
      var p := off + Pow2(j);
      assert SetOwner(Push(h, p, j), off, hi, t) == Push(SetOwner(h, off, hi, t), p, j) by {
        assert SetOwner(Push(h, p, j), off, hi, t).owner == Push(SetOwner(h, off, hi, t), p, j).owner;
      }
      StairsSetFront(Push(h, p, j), off, hi, j + 1, whole, t);
    }
  }

  /** Undoing the live mark of a carved chunk leaves just the stairs. */
  lemma UncarveIsStairs(h: Heap, off: nat, bits: nat, whole: nat)
    requires bits <= whole < |h.lists| && Aligned(off, whole)
    requires AllOwned(h, off, off + Pow2(bits), Limbo)
    ensures SetOwner(Carve(h, off, bits, whole), off, off + Pow2(bits), Limbo) == Stairs(h, off, bits, whole)
  {
    hide ToFree, Pow2, Stairs, Paint, AllOwned, Aligned;
    var live := SetOwner(h, off, off + Pow2(bits), Chunk(off, bits, true));
    ToFreeIsStairs(live, off, bits, whole);
    StairsSetOwner(live, off, bits, whole, Limbo);
    RepaintLimbo(h, off, off + Pow2(bits), Chunk(off, bits, true));
  }

  lemma RepaintLimbo(h: Heap, lo: nat, hi: nat, t: Owner)
    requires AllOwned(h, lo, hi, Limbo)
    ensures SetOwner(SetOwner(h, lo, hi, t), lo, hi, Limbo) == h
  {
    assert SetOwner(SetOwner(h, lo, hi, t), lo, hi, Limbo).owner == h.owner;
  }

  lemma CarveThenFree(h: Heap, off: nat, bits: nat, whole: nat)
    requires bits <= whole < |h.lists| && Aligned(off, whole)
    requires AllOwned(h, off, off + Pow2(whole), Limbo)
    ensures bits < |Carve(h, off, bits, whole).lists|
    ensures FreeHeap(Carve(h, off, bits, whole), off, bits) == Merge(h, off, whole)
  {
    Pow2Monotone(bits, whole);
    UncarveIsStairs(h, off, bits, whole);
    MergeClimbs(h, off, bits, whole);
  }

  /** After Malloc, freeing the chunk amounts to freeing the chunk it was split from. */
  lemma MallocThenFree(h: Heap, bits: nat)
    requires Inv(h) && CanMalloc(h, bits)
    ensures var off, ret := MallocOff(h, bits), FirstList(h.lists, bits);
            && off in h.lists[ret] && bits < |MallocHeap(h, bits).lists|
            && FreeHeap(MallocHeap(h, bits), off, bits) == Merge(Take(h, off, ret), off, ret)
  {
    var off, ret := MallocOff(h, bits), FirstList(h.lists, bits);
    assert off in h.lists[ret];
    TakeInv(h, off, ret);
    CarveThenFree(Take(h, off, ret), off, bits, ret);
  }

  lemma PushUndoesTake(h: Heap, b: nat)
    requires Inv(h) && b < |h.lists| && h.lists[b] != []
    ensures h.lists[b][0] in h.lists[b] && Push(Take(h, h.lists[b][0], b), h.lists[b][0], b) == h
  {
    var o := h.lists[b][0];
    assert o in h.lists[b];
    TakeInv(h, o, b);
    var r := Push(Take(h, o, b), o, b);
    assert Without(h.lists[b], o) == h.lists[b][1..];
    assert [o] + h.lists[b][1..] == h.lists[b];
    assert r.lists == h.lists;
    assert r.owner == h.owner;
  }

  /** A merged chunk is at least as big as the one that was freed. */
  lemma {:induction false} MergeGrows(h: Heap, off: nat, bits: nat)
    requires Inv(h) && bits < |h.lists| && Aligned(off, bits)
    requires AllOwned(h, off, off + Pow2(bits), Limbo)
    ensures |Merge(h, off, bits).owner| == |h.owner|
    ensures forall x :: off <= x < off + Pow2(bits) ==>
              Merge(h, off, bits).owner[x].Chunk? && Merge(h, off, bits).owner[x].bits >= bits
    decreases |h.lists| - bits
  {
    var buddy := FlipBit(off, bits);
    if bits < |h.lists| - 1 && buddy in h.lists[bits] {
      FlipBitAligned(off, bits);
      TakeInv(h, buddy, bits);
      MergeGrows(Take(h, buddy, bits), if buddy < off then buddy else off, bits + 1);
    }
  }

  /** ... and bigger if it has a free buddy. */
  lemma MergeGrowsStrictly(h: Heap, off: nat, bits: nat)
    requires Inv(h) && bits < |h.lists| - 1 && Aligned(off, bits)
    requires AllOwned(h, off, off + Pow2(bits), Limbo)
    requires FlipBit(off, bits) in h.lists[bits]
    ensures |Merge(h, off, bits).owner| == |h.owner|
    ensures Merge(h, off, bits).owner[off].Chunk? && Merge(h, off, bits).owner[off].bits > bits
  {
    var buddy := FlipBit(off, bits);
    FlipBitAligned(off, bits);
    TakeInv(h, buddy, bits);
    MergeGrows(Take(h, buddy, bits), if buddy < off then buddy else off, bits + 1);
  }

  /** Freeing the chunk at the head of a list right after taking it restores the
      heap exactly when it has no free buddy. */
  lemma TakeMergeRestores(h: Heap, b: nat)
    requires Inv(h) && b < |h.lists| && h.lists[b] != []
    ensures h.lists[b][0] in h.lists[b]
    ensures Merge(Take(h, h.lists[b][0], b), h.lists[b][0], b) == h
       <==> (b + 1 < |h.lists| ==> !IsFree(h, FlipBit(h.lists[b][0], b), b))
  {
    var off := h.lists[b][0];
    PushUndoesTake(h, b);
    TakeInv(h, off, b);
    FlipBitAligned(off, b);
    assert ListOk(h, b);
    WithoutFacts(h.lists[b], off);
    var base, buddy := Take(h, off, b), FlipBit(off, b);
    assert buddy in base.lists[b] <==> IsFree(h, buddy, b);
    if b < |h.lists| - 1 && buddy in base.lists[b] {
      MergeGrowsStrictly(base, off, b);
    }
  }

  /** Malloc then Free restores the whole heap, list order included, exactly
      when the chunk Malloc picked had no free buddy of its own size. */
  lemma MallocFreeRestores(h: Heap, bits: nat)
    requires Inv(h) && CanMalloc(h, bits)
    ensures bits < |MallocHeap(h, bits).lists|
    ensures var off, ret := MallocOff(h, bits), FirstList(h.lists, bits);
            FreeHeap(MallocHeap(h, bits), off, bits) == h
            <==> (ret + 1 < |h.lists| ==> !IsFree(h, FlipBit(off, ret), ret))
  {
    MallocThenFree(h, bits);
    TakeMergeRestores(h, FirstList(h.lists, bits));
  }

  /** In canonical form the round trip is always exact. */
  lemma MallocFreeRoundTrip(h: Heap, bits: nat)
    requires Inv(h) && Canonical(h) && CanMalloc(h, bits)
    ensures bits < |MallocHeap(h, bits).lists|
    ensures FreeHeap(MallocHeap(h, bits), MallocOff(h, bits), bits) == h
  {
    MallocFreeRestores(h, bits);
    var off, ret := MallocOff(h, bits), FirstList(h.lists, bits);
    assert off in h.lists[ret];
    assert !FreePair(h, off, ret) || ret + 1 >= |h.lists|;
    assert ListOk(h, ret);
  }
}
