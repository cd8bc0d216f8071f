/** Covering a range of blocks with chunks, largest first fit (`toFree`). */
module Cover {
  import opened Dyadic
  import opened Heaps
  import opened Accounting

  /** A chunk of class b can be cut at i without leaving i .. past. */
  predicate Fits(i: nat, past: nat, b: nat) {
    Aligned(i, b) && i + Pow2(b) <= past
  }

  lemma FitsSmaller(i: nat, past: nat, b: nat, c: nat)
    requires Fits(i, past, b) && c <= b
    ensures Fits(i, past, c)
  {
    AlignedWeaken(i, b, c);
    Pow2Monotone(c, b);
  }

  /** The largest class up to b that fits at i. */
  function Fit(i: nat, past: nat, b: nat): (r: nat)
    requires i < past
    ensures r <= b && Fits(i, past, r)
    ensures r < b ==> !Fits(i, past, r + 1)
  {
    if b == 0 || Fits(i, past, b) then b else Fit(i, past, b - 1)
  }

  lemma FitUnique(i: nat, past: nat, b: nat, r: nat)
    requires i < past && r <= b && Fits(i, past, r)
    requires r < b ==> !Fits(i, past, r + 1)
    ensures r == Fit(i, past, b)
  {
    var s := Fit(i, past, b);
    if s < r {
      FitsSmaller(i, past, r, s + 1);
    } else if r < s {
      FitsSmaller(i, past, s, r + 1);
    }
  }

  /** Frees the blocks i .. past chunk by chunk. */
  function ToFree(h: Heap, i: nat, past: nat): (r: Heap)
    requires |h.lists| > 0
    ensures |r.owner| == |h.owner| && |r.lists| == |h.lists|
    decreases past - i
  {
    if i >= past then h
    else
      var b := Fit(i, past, |h.lists| - 1);
      ToFree(Push(h, i, b), i + Pow2(b), past)
  }

  /** A free chunk that was cut from lo .. past and could not have been bigger. */
  ghost predicate CutFrom(t: Owner, lo: nat, past: nat, sizes: nat) {
    && t.Chunk? && !t.live
    && lo <= t.off && t.off + Pow2(t.bits) <= past
    && (t.bits + 1 < sizes ==> !Fits(t.off, past, t.bits + 1))
  }

  /** Nothing but the blocks lo .. hi changed hands. */
  ghost predicate SameOutside(h: Heap, r: Heap, lo: int, hi: int) {
    && |r.owner| == |h.owner| && |r.lists| == |h.lists|
    && forall x :: 0 <= x < |h.owner| && !(lo <= x < hi) ==> r.owner[x] == h.owner[x]
  }

  /** All of i .. past, and nothing else, becomes free, cut into the largest
      chunks that are aligned and fit. */
  lemma {:induction false} ToFreeOwners(h: Heap, i: nat, past: nat)
    requires |h.lists| > 0 && i <= past <= |h.owner|
    ensures SameOutside(h, ToFree(h, i, past), i, past)
    ensures forall x :: i <= x < past ==> CutFrom(ToFree(h, i, past).owner[x], i, past, |h.lists|)
    decreases past - i
  {
    if i < past {
      var b := Fit(i, past, |h.lists| - 1);
      ToFreeOwners(Push(h, i, b), i + Pow2(b), past);
    }
  }

  lemma {:induction false} ToFreeCount(h: Heap, i: nat, past: nat)
    requires |h.lists| > 0 && i <= past && AllOwned(h, i, past, Limbo)
    ensures FreeBlocks(ToFree(h, i, past)) == FreeBlocks(h) + (past - i)
    decreases past - i
  {
    if i < past {
      var b := Fit(i, past, |h.lists| - 1);
      PushCount(h, i, b);
      ToFreeCount(Push(h, i, b), i + Pow2(b), past);
    }
  }

  lemma {:induction false} ToFreeInv(h: Heap, i: nat, past: nat)
    requires Inv(h) && i <= past && AllOwned(h, i, past, Limbo)
    ensures Inv(ToFree(h, i, past))
    decreases past - i
  {
    if i < past {
      var b := Fit(i, past, |h.lists| - 1);
      PushInv(h, i, b);
      ToFreeInv(Push(h, i, b), i + Pow2(b), past);
    }
  }

  // ----- The chunks in the order in which they are cut -----

  datatype Piece = Piece(off: nat, bits: nat)

  function Plan(i: nat, past: nat, sizes: nat): (r: seq<Piece>)
    requires sizes > 0
    decreases past - i
  {
    if i >= past then []
    else
      var b := Fit(i, past, sizes - 1);
      [Piece(i, b)] + Plan(i + Pow2(b), past, sizes)
  }

  function PushAll(h: Heap, plan: seq<Piece>): (r: Heap)
    requires forall k :: 0 <= k < |plan| ==> plan[k].bits < |h.lists|
    decreases |plan|
  {
    if plan == [] then h
    else PushAll(Push(h, plan[0].off, plan[0].bits), plan[1..])
  }

  ghost predicate LargestFit(p: Piece, past: nat, sizes: nat) {
    p.bits < sizes && Fits(p.off, past, p.bits) && (p.bits + 1 < sizes ==> !Fits(p.off, past, p.bits + 1))
  }

  /** The pieces lie end to end and cover i .. past exactly. */
  ghost predicate Tiles(plan: seq<Piece>, i: nat, past: nat) {
    if plan == [] then i == past
    else plan[0].off == i < past && Tiles(plan[1..], i + Pow2(plan[0].bits), past)
  }

  lemma {:induction false} PlanTiles(i: nat, past: nat, sizes: nat)
    requires sizes > 0
    ensures i <= past ==> Tiles(Plan(i, past, sizes), i, past)
    ensures forall k :: 0 <= k < |Plan(i, past, sizes)| ==>
              LargestFit(Plan(i, past, sizes)[k], past, sizes) && Plan(i, past, sizes)[k].off >= i
    decreases past - i
  {
    if i < past {
      var b := Fit(i, past, sizes - 1);
      PlanTiles(i + Pow2(b), past, sizes);
    }
  }

  /** toFree is the pieces of the plan, pushed one after the other. */
  lemma {:induction false} PlanPushesToFree(h: Heap, i: nat, past: nat)
    requires |h.lists| > 0
    ensures forall k :: 0 <= k < |Plan(i, past, |h.lists|)| ==> Plan(i, past, |h.lists|)[k].bits < |h.lists|
    ensures PushAll(h, Plan(i, past, |h.lists|)) == ToFree(h, i, past)
    decreases past - i
  {
    hide Paint, Pow2, Aligned, Fits;
    PlanTiles(i, past, |h.lists|);
    if i < past {
      var b := Fit(i, past, |h.lists| - 1);
      var rest := Plan(i + Pow2(b), past, |h.lists|);
      PlanPushesToFree(Push(h, i, b), i + Pow2(b), past);
      assert ([Piece(i, b)] + rest)[1..] == rest;
    }
  }

  /** Pushing pieces that tile a range makes each of them a free chunk and leaves no
      other free chunk starting there. */
  lemma {:induction false} PushAllPieces(h: Heap, plan: seq<Piece>, i: nat, past: nat)
    requires Tiles(plan, i, past) && past <= |h.owner|
    requires forall k :: 0 <= k < |plan| ==> plan[k].bits < |h.lists|
    ensures SameOutside(h, PushAll(h, plan), i, past)
    ensures forall k :: 0 <= k < |plan| ==> IsFree(PushAll(h, plan), plan[k].off, plan[k].bits)
    ensures forall o: nat, b: nat :: i <= o < past && IsFree(PushAll(h, plan), o, b) ==> Piece(o, b) in plan
    decreases |plan|
  {
    if plan != [] {
      var p := plan[0];
      var h1 := Push(h, p.off, p.bits);
      TilesInside(plan[1..], i + Pow2(p.bits), past);
      PushAllPieces(h1, plan[1..], i + Pow2(p.bits), past);
      var r := PushAll(h1, plan[1..]);
      assert forall x :: i <= x < i + Pow2(p.bits) ==> r.owner[x] == Chunk(i, p.bits, false);
      assert plan == [p] + plan[1..];
    }
  }

  lemma {:induction false} TilesInside(plan: seq<Piece>, i: nat, past: nat)
    requires Tiles(plan, i, past)
    ensures i <= past
  {
    if plan != [] { TilesInside(plan[1..], i + Pow2(plan[0].bits), past); }
  }

  /** Once the end of the range is the limit, sizes strictly fall. */
  lemma {:induction false} PlanFalls(i: nat, past: nat, sizes: nat, c: nat)
    requires c < sizes && Aligned(i, c) && past - i < Pow2(c)
    ensures forall k :: 0 <= k < |Plan(i, past, sizes)| ==> Plan(i, past, sizes)[k].bits < c
    ensures forall k, l :: 0 <= k < l < |Plan(i, past, sizes)| ==>
              Plan(i, past, sizes)[l].bits < Plan(i, past, sizes)[k].bits
    decreases past - i
  {
    if i < past {
      var b := Fit(i, past, sizes - 1);
      if b >= c { Pow2Monotone(c, b); }
      AlignedWeaken(i, c, b + 1);
      AlignedSum(i, c, b);
      PlanFalls(i + Pow2(b), past, sizes, b);
    }
  }

  /** After a piece smaller than a size the start is aligned to, sizes never rise again. */
  lemma {:induction false} PlanStaysDown(i: nat, past: nat, sizes: nat, c: nat, k: nat, l: nat)
    requires c < sizes && Aligned(i, c) && k < l < |Plan(i, past, sizes)|
    requires Plan(i, past, sizes)[k].bits < c
    ensures Plan(i, past, sizes)[l].bits < Plan(i, past, sizes)[k].bits
    decreases past - i
  {
    var b := Fit(i, past, sizes - 1);
    if b < c {
      if past - i >= Pow2(c) { FitsSmaller(i, past, c, b + 1); }
      PlanFalls(i, past, sizes, c);
    } else {
      AlignedNext(i, b);
      AlignedWeaken(i + Pow2(b), b, c);
      PlanStaysDown(i + Pow2(b), past, sizes, c, k - 1, l - 1);
    }
  }

  /** Sizes rise and then fall: no piece is smaller than both an earlier and a later one. */
  lemma {:induction false} PlanRisesThenFalls(i: nat, past: nat, sizes: nat, j: nat, k: nat, l: nat)
    requires sizes > 0 && j < k < l < |Plan(i, past, sizes)|
    ensures Plan(i, past, sizes)[k].bits >= Plan(i, past, sizes)[j].bits
         || Plan(i, past, sizes)[k].bits > Plan(i, past, sizes)[l].bits
    decreases past - i
  {
    var b := Fit(i, past, sizes - 1);
    AlignedNext(i, b);
    if j > 0 {
      PlanRisesThenFalls(i + Pow2(b), past, sizes, j - 1, k - 1, l - 1);
    } else if Plan(i, past, sizes)[k].bits < b {
      PlanStaysDown(i + Pow2(b), past, sizes, b, k - 1, l - 1);
    }
  }

  /** No two pieces below the top size are buddies: they would have been cut as one. */
  lemma PlanHasNoBuddies(i: nat, past: nat, sizes: nat, j: nat, k: nat)
    requires sizes > 0 && j < |Plan(i, past, sizes)| && k < |Plan(i, past, sizes)|
    requires Plan(i, past, sizes)[j].bits == Plan(i, past, sizes)[k].bits < sizes - 1
    ensures Plan(i, past, sizes)[k].off != FlipBit(Plan(i, past, sizes)[j].off, Plan(i, past, sizes)[j].bits)
  {
    PlanTiles(i, past, sizes);
    FlipBitAligned(Plan(i, past, sizes)[j].off, Plan(i, past, sizes)[j].bits);
  }
}
