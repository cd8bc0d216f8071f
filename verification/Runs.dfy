/** Whole histories of the allocator: what every legal sequence of calls keeps. */
module Runs {
  import opened Dyadic
  import opened Heaps
  import opened Accounting
  import opened Cover
  import opened HeapOps
  import opened CanonicalForm

  // ----- Release and canonical form -----

  /** Every planned piece becomes a free chunk ... */
  lemma ToFreeMakesPieces(h: Heap, i: nat, past: nat)
    requires |h.lists| > 0 && i <= past <= |h.owner|
    ensures forall k :: 0 <= k < |Plan(i, past, |h.lists|)| ==>
              IsFree(ToFree(h, i, past), Plan(i, past, |h.lists|)[k].off, Plan(i, past, |h.lists|)[k].bits)
  {
    hide Plan, ToFree, PushAll, Tiles;
    PlanTiles(i, past, |h.lists|);
    PlanPushesToFree(h, i, past);
    PushAllPieces(h, Plan(i, past, |h.lists|), i, past);
  }

  /** ... and there are no other free chunks in the range. */
  lemma ToFreeMakesNoMore(h: Heap, i: nat, past: nat, o: nat, b: nat)
    requires |h.lists| > 0 && i <= o < past <= |h.owner| && IsFree(ToFree(h, i, past), o, b)
    ensures Piece(o, b) in Plan(i, past, |h.lists|)
  {
    hide Plan, ToFree, PushAll, Tiles;
    PlanTiles(i, past, |h.lists|);
    PlanPushesToFree(h, i, past);
    PushAllPieces(h, Plan(i, past, |h.lists|), i, past);
  }

  /** Some piece of lo .. hi has a buddy of its own size that is already free. */
  ghost predicate LeavesBuddies(h: Heap, lo: nat, hi: nat)
    requires |h.lists| > 0
  {
    exists o: nat, b: nat ::
      Piece(o, b) in Plan(lo, hi, |h.lists|) && b + 1 < |h.lists| && IsFree(h, FlipBit(o, b), b)
  }

  lemma ReleasePair(h: Heap, lo: nat, hi: nat, o: nat, b: nat)
    requires Settled(h) && Canonical(h) && lo <= hi && AllOwned(h, lo, hi, Reserved)
    requires b + 1 < |h.lists| && !LeavesBuddies(h, lo, hi)
    ensures !FreePair(ReleaseHeap(h, lo, hi), o, b)
  {
    var r := ReleaseHeap(h, lo, hi);
    if FreePair(r, o, b) {
      var p := FlipBit(o, b);
      FlipBitInvolution(o, b);
      ReleaseEffect(h, lo, hi);
      assert !FreePair(h, o, b);
      if lo <= o < hi && lo <= p < hi {
        CutsAreNoBuddies(r, o, b, lo, hi);
      } else if lo <= o < hi {
        ToFreeMakesNoMore(SetOwner(h, lo, hi, Limbo), lo, hi, o, b);
      } else if lo <= p < hi {
        ToFreeMakesNoMore(SetOwner(h, lo, hi, Limbo), lo, hi, p, b);
      }
    }
  }

  /** Release never merges: it keeps canonical form exactly when no piece it
      cuts is the buddy of a chunk that was free before. */
  lemma ReleaseCanonical(h: Heap, lo: nat, hi: nat)
    requires Settled(h) && Canonical(h) && lo <= hi && AllOwned(h, lo, hi, Reserved)
    ensures Canonical(ReleaseHeap(h, lo, hi)) <==> !LeavesBuddies(h, lo, hi)
  {
    var r := ReleaseHeap(h, lo, hi);
    ReleaseEffect(h, lo, hi);
    if LeavesBuddies(h, lo, hi) {
      var o: nat, b: nat :| Piece(o, b) in Plan(lo, hi, |h.lists|) && b + 1 < |h.lists| && IsFree(h, FlipBit(o, b), b);
      ToFreeMakesPieces(SetOwner(h, lo, hi, Limbo), lo, hi);
      assert FreePair(r, o, b);
    } else {
      forall o: nat, b: nat | b + 1 < |r.lists| ensures !FreePair(r, o, b) {
        ReleasePair(h, lo, hi, o, b);
      }
    }
  }

  /** Chunks below the top size never straddle a multiple of the top size. */
  lemma BuddyStaysInside(lo: nat, hi: nat, n: nat, top: nat, o: nat, b: nat)
    requires Aligned(lo, top) && (Aligned(hi, top) || hi == n)
    requires b < top && Aligned(o, b) && lo <= o && o + Pow2(b) <= hi && FlipBit(o, b) < n
    ensures lo <= FlipBit(o, b) < hi
  {
    FlipBitAligned(o, b);
    Pow2Strict(b, top);
    if o < lo + Pow2(top) { NestedBuddy(lo, top, o, b); }
    if hi != n && FlipBit(o, b) >= hi {
      Nested(hi, top, o, b + 1);
    }
  }

  /** Releasing up to multiples of the largest chunk size keeps canonical form. */
  lemma ReleaseAtBoundary(h: Heap, lo: nat, hi: nat)
    requires Settled(h) && Canonical(h) && lo <= hi && AllOwned(h, lo, hi, Reserved)
    requires Aligned(lo, |h.lists| - 1) && (Aligned(hi, |h.lists| - 1) || hi == |h.owner|)
    ensures Canonical(ReleaseHeap(h, lo, hi))
  {
    ReleaseCanonical(h, lo, hi);
    PlanTiles(lo, hi, |h.lists|);
    forall o: nat, b: nat | Piece(o, b) in Plan(lo, hi, |h.lists|) && b + 1 < |h.lists|
      ensures !IsFree(h, FlipBit(o, b), b)
    {
      if FlipBit(o, b) < |h.owner| {
        BuddyStaysInside(lo, hi, |h.owner|, |h.lists| - 1, o, b);
      }
    }
  }

  // ----- Calls -----

  datatype Call =
    | Malloc(bytes: nat)
    | Free(off: nat)
    | Realloc(off: nat, bytes: nat)
    | Release(lo: nat, hi: nat)

  predicate LiveAt(h: Heap, off: nat) {
    off < |h.owner| && h.owner[off].Chunk? && h.owner[off].live && h.owner[off].off == off
  }

  /** What the allocator asks of its callers: pointers to free or resize are
      live, and released blocks were never released before. */
  ghost predicate Legal(h: Heap, c: Call) {
    match c
    case Malloc(_) => true
    case Free(off) => LiveAt(h, off)
    case Realloc(off, _) => LiveAt(h, off)
    case Release(lo, hi) => lo <= hi && AllOwned(h, lo, hi, Reserved)
  }

  function MallocStep(h: Heap, bits: nat): (r: Heap) {
    if CanMalloc(h, bits) then MallocHeap(h, bits) else h
  }

  function ReallocStep(h: Heap, off: nat, bytes: nat): (r: Heap)
    requires Inv(h) && LiveAt(h, off)
  {
    ChunkFacts(h, off);
    var bits, want := h.owner[off].bits, Class(bytes);
    if bytes == 0 then FreeHeap(h, off, bits)
    else if want > bits then
      if CanMalloc(h, want) then
        FreeHeap(MallocHeap(h, want), off, bits)
      else h
    else if want < bits then ShrinkHeap(h, off, bits, want)
    else h
  }

  /** Where a resized chunk ends up. */
  function ReallocOff(h: Heap, off: nat, bytes: nat): (r: nat)
    requires LiveAt(h, off)
  {
    if Class(bytes) > h.owner[off].bits && CanMalloc(h, Class(bytes)) then MallocOff(h, Class(bytes)) else off
  }

  function Step(h: Heap, c: Call): (r: Heap)
    requires Inv(h) && Legal(h, c)
  {
    match c
    case Malloc(bytes) => MallocStep(h, Class(bytes))
    case Free(off) => ChunkFacts(h, off); FreeHeap(h, off, h.owner[off].bits)
    case Realloc(off, bytes) => ReallocStep(h, off, bytes)
    case Release(lo, hi) => ReleaseHeap(h, lo, hi)
  }

  // ----- What one call does -----

  /** Release frees exactly the range. */
  lemma ReleaseStepFrees(h: Heap, lo: nat, hi: nat)
    requires Settled(h) && Legal(h, Release(lo, hi))
    ensures Frees(h, Step(h, Release(lo, hi)), lo, hi)
    ensures FreeBlocks(Step(h, Release(lo, hi))) == FreeBlocks(h) + (hi - lo)
  {
    ReleaseEffect(h, lo, hi);
  }

  /** Resizing to nothing frees exactly the chunk. */
  lemma ReallocZeroFrees(h: Heap, off: nat)
    requires Settled(h) && LiveAt(h, off)
    ensures Step(h, Realloc(off, 0)) == Step(h, Free(off))
    ensures Frees(h, Step(h, Realloc(off, 0)), off, off + Pow2(h.owner[off].bits))
  {
    ChunkFacts(h, off);
    FreeEffect(h, off, h.owner[off].bits);
  }

  /** Resizing ends with a live chunk of exactly the wanted class and the difference
      in free blocks, or, if it has to grow and cannot, with nothing changed. */
  lemma ReallocStepMeans(h: Heap, off: nat, bytes: nat)
    requires Settled(h) && LiveAt(h, off) && bytes > 0
    ensures var bits, want, dst := h.owner[off].bits, Class(bytes), ReallocOff(h, off, bytes);
            var r := Step(h, Realloc(off, bytes));
            if want <= bits || CanMalloc(h, want) then
              && IsLive(r, dst, want) && FreeBlocks(r) == FreeBlocks(h) + Pow2(bits) - Pow2(want)
              && |r.owner| == |h.owner| && (want > bits ==> KindOf(r.owner[off]) == KFree)
            else r == h && !IsLive(r, dst, want)
  {
    hide Inv, Pow2, Class, FreeBlocks, MallocHeap, MallocOff, FreeHeap, ShrinkHeap;
    var bits, want := h.owner[off].bits, Class(bytes);
    ChunkFacts(h, off);
    if want > bits && CanMalloc(h, want) {
      var g, dst := MallocHeap(h, want), MallocOff(h, want);
      MallocEffect(h, want);
      assert IsLive(g, off, bits) && IsLive(g, dst, want);
      ChunkFacts(g, off);
      FreeEffect(g, off, bits);
    } else if want < bits {
      ShrinkEffect(h, off, bits, want);
    }
  }

  // ----- What one call keeps -----

  /** Reserved blocks stay reserved and live chunks other than `target` stay as they are. */
  ghost predicate Undisturbed(h: Heap, r: Heap, target: int) {
    && |r.owner| == |h.owner| && |r.lists| == |h.lists|
    && forall x :: 0 <= x < |h.owner| ==>
         && (r.owner[x].Reserved? <==> h.owner[x].Reserved?)
         && (h.owner[x].Chunk? && h.owner[x].live && h.owner[x].off != target ==> r.owner[x] == h.owner[x])
  }

  lemma MallocKeeps(h: Heap, bits: nat)
    requires Settled(h)
    ensures Settled(MallocStep(h, bits)) && Undisturbed(h, MallocStep(h, bits), -1)
    ensures Canonical(h) ==> Canonical(MallocStep(h, bits))
  {
    if CanMalloc(h, bits) {
      MallocEffect(h, bits);
      if Canonical(h) { MallocCanonical(h, bits); }
    }
  }

  lemma FreeKeeps(h: Heap, off: nat, bits: nat)
    requires Settled(h) && IsLive(h, off, bits)
    ensures bits < |h.lists|
    ensures Settled(FreeHeap(h, off, bits)) && Undisturbed(h, FreeHeap(h, off, bits), off)
    ensures Canonical(h) ==> Canonical(FreeHeap(h, off, bits))
  {
    Unlive(h, off, bits);
    FreeEffect(h, off, bits);
    if Canonical(h) { FreeCanonical(h, off, bits); }
  }

  lemma ShrinkKeeps(h: Heap, off: nat, bits: nat, want: nat)
    requires Settled(h) && IsLive(h, off, bits) && want <= bits
    ensures Settled(ShrinkHeap(h, off, bits, want)) && Undisturbed(h, ShrinkHeap(h, off, bits, want), off)
    ensures Canonical(h) ==> Canonical(ShrinkHeap(h, off, bits, want))
  {
    Unlive(h, off, bits);
    ShrinkEffect(h, off, bits, want);
    if Canonical(h) { ShrinkCanonical(h, off, bits, want); }
  }

  lemma ReallocKeeps(h: Heap, off: nat, bytes: nat)
    requires Settled(h) && LiveAt(h, off)
    ensures Settled(ReallocStep(h, off, bytes)) && Undisturbed(h, ReallocStep(h, off, bytes), off)
    ensures Canonical(h) ==> Canonical(ReallocStep(h, off, bytes))
  {
    var bits, want := h.owner[off].bits, Class(bytes);
    if bytes == 0 {
      FreeKeeps(h, off, bits);
    } else if want > bits {
      if CanMalloc(h, want) {
        MallocKeeps(h, want);
        FreeKeeps(MallocHeap(h, want), off, bits);
      }
    } else if want < bits {
      ShrinkKeeps(h, off, bits, want);
    }
  }

  function Target(c: Call): (r: int) {
    match c
    case Malloc(_) => -1
    case Free(off) => off
    case Realloc(off, _) => off
    case Release(_, _) => -1
  }

  /** Every call but Release keeps the partition, the reserved blocks, every
      other live chunk, and canonical form. */
  lemma StepKeeps(h: Heap, c: Call)
    requires Settled(h) && Legal(h, c) && !c.Release?
    ensures Settled(Step(h, c)) && Undisturbed(h, Step(h, c), Target(c))
    ensures Canonical(h) ==> Canonical(Step(h, c))
  {
    match c
    case Malloc(bytes) => MallocKeeps(h, Class(bytes));
    case Free(off) => FreeKeeps(h, off, h.owner[off].bits);
    case Realloc(off, bytes) => ReallocKeeps(h, off, bytes);
  }

  lemma StepSettled(h: Heap, c: Call)
    requires Settled(h) && Legal(h, c)
    ensures Settled(Step(h, c))
  {
    if c.Release? { ReleaseEffect(h, c.lo, c.hi); } else { StepKeeps(h, c); }
  }

  // ----- Runs -----

  ghost predicate LegalRun(h: Heap, calls: seq<Call>)
    requires Settled(h)
    decreases |calls|
  {
    calls != [] ==> Legal(h, calls[0]) && (StepSettled(h, calls[0]); LegalRun(Step(h, calls[0]), calls[1..]))
  }

  ghost function Run(h: Heap, calls: seq<Call>): (r: Heap)
    requires Settled(h) && LegalRun(h, calls)
    decreases |calls|
  {
    if calls == [] then h else StepSettled(h, calls[0]); Run(Step(h, calls[0]), calls[1..])
  }

  ghost predicate NoRelease(calls: seq<Call>) {
    forall k :: 0 <= k < |calls| ==> !calls[k].Release?
  }

  /** After every run each block is in exactly one free chunk, live chunk or the
      reserved part, every chunk is aligned and whole, and every free chunk is
      on its list exactly once. */
  lemma {:induction false} RunSettled(h: Heap, calls: seq<Call>)
    requires Settled(h) && LegalRun(h, calls)
    ensures Settled(Run(h, calls)) && |Run(h, calls).owner| == |h.owner|
    decreases |calls|
  {
    if calls != [] {
      StepSettled(h, calls[0]);
      StepSize(h, calls[0]);
      RunSettled(Step(h, calls[0]), calls[1..]);
    }
  }

  lemma StepSize(h: Heap, c: Call)
    requires Settled(h) && Legal(h, c)
    ensures |Step(h, c).owner| == |h.owner| && |Step(h, c).lists| == |h.lists|
  {
    if c.Release? { ReleaseEffect(h, c.lo, c.hi); } else { StepKeeps(h, c); }
  }

  /** Free, live and reserved blocks always add up to the pool. */
  lemma RunConserves(h: Heap, calls: seq<Call>)
    requires Settled(h) && LegalRun(h, calls)
    ensures var r := Run(h, calls);
            FreeBlocks(r) + Count(r.owner, KLive) + Count(r.owner, KReserved) == |h.owner|
  {
    RunSettled(h, calls);
    var r := Run(h, calls);
    CountTotal(r.owner);
    CountNone(r.owner, KLimbo, |r.owner|);
  }

  ghost predicate SameReserved(h: Heap, r: Heap) {
    && |r.owner| == |h.owner| && |r.lists| == |h.lists|
    && forall x :: 0 <= x < |h.owner| ==> (r.owner[x].Reserved? <==> h.owner[x].Reserved?)
  }

  /** Reserved blocks are never handed out or merged, and canonical form is
      kept, over every run of Malloc, Free and Realloc. */
  lemma {:induction false} RunKeeps(h: Heap, calls: seq<Call>)
    requires Settled(h) && LegalRun(h, calls) && NoRelease(calls)
    ensures SameReserved(h, Run(h, calls))
    ensures Canonical(h) ==> Canonical(Run(h, calls))
    decreases |calls|
  {
    if calls != [] {
      StepKeeps(h, calls[0]);
      RunKeeps(Step(h, calls[0]), calls[1..]);
    }
  }

  lemma StepKeepsLive(h: Heap, c: Call, x: nat)
    requires Settled(h) && Legal(h, c) && x < |h.owner|
    requires h.owner[x].Chunk? && h.owner[x].live && h.owner[x].off != Target(c)
    ensures |Step(h, c).owner| == |h.owner| && Step(h, c).owner[x] == h.owner[x]
  {
    if c.Release? { ReleaseEffect(h, c.lo, c.hi); } else { StepKeeps(h, c); }
  }

  /** A live chunk stays the same chunk until a call is made on its own address:
      it is never handed out again, moved, resized or merged on another's account. */
  lemma {:induction false} RunKeepsLive(h: Heap, calls: seq<Call>, x: nat)
    requires Settled(h) && LegalRun(h, calls) && x < |h.owner| && h.owner[x].Chunk? && h.owner[x].live
    requires forall k :: 0 <= k < |calls| ==> Target(calls[k]) != h.owner[x].off
    ensures |Run(h, calls).owner| == |h.owner| && Run(h, calls).owner[x] == h.owner[x]
    decreases |calls|
  {
    if calls != [] {
      StepSettled(h, calls[0]);
      StepKeepsLive(h, calls[0], x);
      RunKeepsLive(Step(h, calls[0]), calls[1..], x);
    }
  }

  ghost predicate NoLive(h: Heap) {
    forall x :: 0 <= x < |h.owner| && h.owner[x].Chunk? ==> !h.owner[x].live
  }

  /** Whatever happened in between and in whatever order the chunks were freed,
      once nothing is live the pool is cut into the same free chunks again. */
  lemma RunDrained(h: Heap, calls: seq<Call>)
    requires Settled(h) && Canonical(h) && NoLive(h)
    requires LegalRun(h, calls) && NoRelease(calls) && NoLive(Run(h, calls))
    ensures Run(h, calls).owner == h.owner
    ensures |Run(h, calls).lists| == |h.lists|
    ensures forall b, o :: 0 <= b < |h.lists| ==> (o in Run(h, calls).lists[b] <==> o in h.lists[b])
  {
    var r := Run(h, calls);
    RunSettled(h, calls);
    RunKeeps(h, calls);
    forall x | 0 <= x < |h.owner| ensures r.owner[x] == h.owner[x] {
      if h.owner[x].Chunk? { CanonicalUnique(h, r, x); }
    }
    SameOwnersSameLists(h, r);
  }

  lemma SameOwnersSameLists(h: Heap, r: Heap)
    requires Inv(h) && Inv(r) && h.owner == r.owner && |h.lists| == |r.lists|
    ensures forall b, o :: 0 <= b < |h.lists| ==> (o in r.lists[b] <==> o in h.lists[b])
  {
    forall b, o | 0 <= b < |h.lists| ensures o in r.lists[b] <==> o in h.lists[b] {
      assert ListOk(h, b) && ListOk(r, b);
      if o in h.lists[b] { assert IsFree(r, o, b); }
      if o in r.lists[b] { assert IsFree(h, o, b); }
    }
  }

  // ----- Start-up (setupAllocator) -----

  function InitHeap(n: nat, sizes: nat): (h: Heap) {
    Heap(seq(n, _ => Reserved), seq(sizes, _ => []))
  }

  lemma InitSettled(n: nat, sizes: nat)
    requires sizes > 0
    ensures Settled(InitHeap(n, sizes)) && Canonical(InitHeap(n, sizes)) && NoLive(InitHeap(n, sizes))
  {
    var h := InitHeap(n, sizes);
    forall o: nat, b: nat | b + 1 < |h.lists| ensures !FreePair(h, o, b) {}
    forall b | 0 <= b < |h.lists| ensures ListOk(h, b) {}
  }

  /** The blocks past the traceable region, which is one chunk of the top size. */
  function SetupUpper(n: nat, sizes: nat): (h: Heap)
    requires sizes > 0
  {
    var reserve := Pow2(sizes - 1);
    if reserve < n then ReleaseHeap(InitHeap(n, sizes), reserve, n) else InitHeap(n, sizes)
  }

  /** The traceable region itself is released only if the front buffer is elsewhere. */
  function SetupHeap(n: nat, sizes: nat, frontBuffer: bool): (h: Heap)
    requires sizes > 0
  {
    var reserve := Pow2(sizes - 1);
    if frontBuffer then ReleaseHeap(SetupUpper(n, sizes), 0, if reserve < n then reserve else n)
    else SetupUpper(n, sizes)
  }

  lemma {:induction false} AlignedMultiple(b: nat)
    ensures Aligned(0, b) && Aligned(Pow2(b), b)
  {
    if b > 0 { AlignedMultiple(b - 1); }
  }

  lemma SetupUpperEffect(n: nat, sizes: nat)
    requires sizes > 0
    ensures var h := SetupUpper(n, sizes);
            && Settled(h) && Canonical(h) && NoLive(h) && |h.owner| == n && |h.lists| == sizes
            && forall x :: 0 <= x < n ==> (h.owner[x].Reserved? <==> x < Pow2(sizes - 1))
  {
    var reserve := Pow2(sizes - 1);
    InitSettled(n, sizes);
    AlignedMultiple(sizes - 1);
    if reserve < n {
      ReleaseEffect(InitHeap(n, sizes), reserve, n);
      ReleaseAtBoundary(InitHeap(n, sizes), reserve, n);
    }
  }

  /** After start-up the heap is in canonical form with nothing live, and the
      traceable region is reserved exactly if there is no front buffer. */
  lemma SetupEffect(n: nat, sizes: nat, frontBuffer: bool)
    requires sizes > 0
    ensures var h := SetupHeap(n, sizes, frontBuffer);
            && Settled(h) && Canonical(h) && NoLive(h) && |h.owner| == n && |h.lists| == sizes
            && forall x :: 0 <= x < n ==> (h.owner[x].Reserved? <==> !frontBuffer && x < Pow2(sizes - 1))
  {
    SetupUpperEffect(n, sizes);
    AlignedMultiple(sizes - 1);
    if frontBuffer {
      var h := SetupUpper(n, sizes);
      var s := if Pow2(sizes - 1) < n then Pow2(sizes - 1) else n;
      ReleaseEffect(h, 0, s);
      ReleaseAtBoundary(h, 0, s);
    }
  }

  /** Without a front buffer no run ever hands out a block of the traceable region. */
  lemma TraceableRegionIsSafe(n: nat, sizes: nat, calls: seq<Call>, x: nat)
    requires sizes > 0 && x < n && x < Pow2(sizes - 1) && NoRelease(calls)
    requires Settled(SetupHeap(n, sizes, false)) && LegalRun(SetupHeap(n, sizes, false), calls)
    ensures |Run(SetupHeap(n, sizes, false), calls).owner| == n
    ensures Run(SetupHeap(n, sizes, false), calls).owner[x].Reserved?
  {
    SetupEffect(n, sizes, false);
    RunKeeps(SetupHeap(n, sizes, false), calls);
  }

  /** Releasing two neighbouring blocks one by one leaves two free buddies. */
  lemma ReleaseByPiecesNotCanonical()
    ensures !Canonical(ReleaseHeap(ReleaseHeap(InitHeap(2, 2), 0, 1), 1, 2))
  {
    var h := InitHeap(2, 2);
    InitSettled(2, 2);
    var h1 := ReleaseHeap(h, 0, 1);
    ReleaseEffect(h, 0, 1);
    ReleaseEffect(h1, 1, 2);
    var r := ReleaseHeap(h1, 1, 2);
    ToFreeMakesPieces(SetOwner(h, 0, 1, Limbo), 0, 1);
    ToFreeMakesPieces(SetOwner(h1, 1, 2, Limbo), 1, 2);
    assert Plan(0, 1, 2)[0] == Piece(0, 0);
    assert Plan(1, 2, 2)[0] == Piece(1, 0);
    assert FreePair(r, 0, 0);
  }
}
