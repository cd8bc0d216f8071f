/** IDs handed out from a bit mask, with a cached index of the first word that
    may have room (surface and GMR IDs). */
module IdPool {
  import opened MaskBits

  /** Bit `id` of the mask. */
  predicate Used(mask: seq<bv64>, id: nat)
    requires id < 64 * |mask|
  {
    Has(mask[id / 64], id % 64)
  }

  /** b is a with bit id set to v. */
  ghost predicate OneId(a: seq<bv64>, b: seq<bv64>, id: nat, v: bool) {
    |a| == |b| && forall i :: 0 <= i < 64 * |a| ==> Used(b, i) == if i == id then v else Used(a, i)
  }

  lemma SetId(a: seq<bv64>, id: nat, x: bv64)
    requires id < 64 * |a| && forall j: nat :: Has(x, j) <==> j == id % 64
    ensures OneId(a, a[id / 64 := Or(a[id / 64], x)], id, true)
  {
    hide Has, Or;
    forall i | 0 <= i < 64 * |a|
      ensures Used(a[id / 64 := Or(a[id / 64], x)], i) == if i == id then true else Used(a, i)
    {
      HasOr(a[id / 64], x, i % 64);
    }
  }

  lemma ClearId(a: seq<bv64>, id: nat)
    requires id < 64 * |a|
    ensures OneId(a, a[id / 64 := AndNot(a[id / 64], Bit(id % 64))], id, false)
  {
    hide Has, AndNot, Bit;
    forall i | 0 <= i < 64 * |a|
      ensures Used(a[id / 64 := AndNot(a[id / 64], Bit(id % 64))], i) == if i == id then false else Used(a, i)
    {
      HasAndNot(a[id / 64], Bit(id % 64), i % 64);
      HasBit(id % 64, i % 64);
    }
  }

  /** No free ID from lo up to hi. */
  ghost predicate AllUsed(mask: seq<bv64>, lo: nat, hi: nat) {
    hi <= 64 * |mask| && forall i :: lo <= i < hi ==> Used(mask, i)
  }

  lemma FullWord(mask: seq<bv64>, w: nat)
    requires w < |mask| && mask[w] == ALL
    ensures AllUsed(mask, 64 * w, 64 * w + 64)
  {
    hide Has;
    forall i | 64 * w <= i < 64 * w + 64 ensures Used(mask, i) { HasAll(i % 64); }
  }

  lemma LowestFree(mask: seq<bv64>, w: nat, k: nat)
    requires w < |mask| && k < 64 && Halves(Isolate(mask[w]), k) == 1
    ensures !Used(mask, 64 * w + k) && AllUsed(mask, 64 * w, 64 * w + k)
    ensures forall j: nat :: Has(Isolate(mask[w]), j) <==> j == k
  {
    hide Has, Halves, Isolate;
    IsolateIsLowestZero(mask[w], k, 0);
    forall i | 64 * w <= i < 64 * w + k ensures Used(mask, i) { IsolateIsLowestZero(mask[w], k, i - 64 * w); }
    forall j: nat ensures Has(Isolate(mask[w]), j) <==> j == k { IsolateIsLowestZero(mask[w], k, j); }
  }

  /** Finds and sets the lowest clear bit from word `start` on
      (find_bit_in_array64); the result counts from that word. */
  method FindBit(mask: array<bv64>, start: nat) returns (r: int)
    requires start <= mask.Length
    modifies mask
    ensures r == -1 ==> mask[..] == old(mask[..]) && AllUsed(mask[..], 64 * start, 64 * mask.Length)
    ensures r != -1 ==>
              && 0 <= r < 64 * (mask.Length - start)
              && !Used(old(mask[..]), 64 * start + r)
              && AllUsed(old(mask[..]), 64 * start, 64 * start + r)
              && OneId(old(mask[..]), mask[..], 64 * start + r, true)
  {
    hide Used, Halves, Isolate, Or, Has;
    var w := start;
    while w < mask.Length
      invariant start <= w <= mask.Length && mask[..] == old(mask[..])
      invariant AllUsed(mask[..], 64 * start, 64 * w)
    {
      var x := Isolate(mask[w]);
      IsolateStep(mask[w]);
      if x != 0 {
        var k := Log2_64(x);
        LowestFree(mask[..], w, k);
        SetId(mask[..], 64 * w + k, x);
        mask[w] := Or(mask[w], x);
        assert mask[..] == old(mask[..])[w := Or(old(mask[w]), x)];
        return 64 * (w - start) + k;
      }
      FullWord(mask[..], w);
      w := w + 1;
    }
    r := -1;
  }

  /** b is a with the bits lo .. hi set. */
  ghost predicate Masked(a: seq<bv64>, b: seq<bv64>, lo: nat, hi: nat) {
    |a| == |b| && forall i :: 0 <= i < 64 * |a| ==> Used(b, i) == (Used(a, i) || lo <= i < hi)
  }

  method SetBits(mask: array<bv64>, lo: nat, hi: nat)
    requires hi <= 64 * mask.Length
    modifies mask
    ensures Masked(old(mask[..]), mask[..], lo, hi)
  {
    hide Used, Or, Bit, Has;
    var i := lo;
    while i < hi
      invariant lo <= i && (i <= hi || i == lo)
      invariant Masked(old(mask[..]), mask[..], lo, i)
    {
      ghost var before := mask[..];
      forall j: nat ensures Has(Bit(i % 64), j) <==> j == i % 64 { HasBit(i % 64, j); }
      SetId(mask[..], i, Bit(i % 64));
      mask[i / 64] := Or(mask[i / 64], Bit(i % 64));
      assert mask[..] == before[i / 64 := Or(before[i / 64], Bit(i % 64))];
      i := i + 1;
    }
  }

  lemma FillWord(a: seq<bv64>, w: nat)
    requires w < |a|
    ensures Masked(a, a[w := ALL], 64 * w, 64 * w + 64)
  {
    hide Has;
    forall i | 0 <= i < 64 * |a| ensures Used(a[w := ALL], i) == (Used(a, i) || 64 * w <= i < 64 * w + 64) {
      if i / 64 == w { HasAll(i % 64); }
    }
  }

  method FillWords(mask: array<bv64>, first: nat, n: nat)
    requires first + n <= mask.Length
    modifies mask
    ensures Masked(old(mask[..]), mask[..], 64 * first, 64 * (first + n))
  {
    hide Used;
    for i := 0 to n
      invariant Masked(old(mask[..]), mask[..], 64 * first, 64 * (first + i))
    {
      ghost var before := mask[..];
      FillWord(before, first + i);
      mask[first + i] := ALL;
      assert mask[..] == before[first + i := ALL];
    }
  }

  function RoundUp64(n: nat): (r: nat)
    ensures r % 64 == 0 && n <= r < n + 64
  {
    (n + 63) / 64 * 64
  }

  function RoundDown64(n: nat): (r: nat)
    ensures r % 64 == 0 && r <= n < r + 64
  {
    n / 64 * 64
  }

  /** Sets exactly the bits maskStart .. maskEnd, whole words at a time where
      possible (mask_array64). */
  method MaskArray(mask: array<bv64>, maskStart: nat, maskEnd: nat)
    requires maskStart < maskEnd ==> maskEnd <= 64 * mask.Length
    modifies mask
    ensures Masked(old(mask[..]), mask[..], maskStart, maskEnd)
  {
    hide Used, RoundUp64, RoundDown64;
    var firstFull, pastFull := RoundUp64(maskStart), RoundDown64(maskEnd);
    var past := if maskEnd >= firstFull then firstFull else maskEnd;
    if maskStart < past { SetBits(mask, maskStart, past); }
    if pastFull > firstFull { FillWords(mask, firstFull / 64, (pastFull - firstFull) / 64); }
    if pastFull < past { pastFull := past; }
    if pastFull < maskEnd { SetBits(mask, pastFull, maskEnd); }
  }

  // ----- What the allocators do, on sets of IDs -----

  const TWO32: nat := 0x1_0000_0000

  /** IDs below `capacity` are managed; beyond that a counter is used. */
  datatype Ids = Ids(capacity: nat, used: set<nat>, unmanaged: nat)

  /** The smallest ID from k on that is not used, or n. */
  function FirstFree(used: set<nat>, k: nat, n: nat): (r: nat)
    requires k <= n
    ensures k <= r <= n && (r < n ==> r !in used) && forall i: nat :: k <= i < r ==> i in used
    decreases n - k
  {
    if k == n || k !in used then k else FirstFree(used, k + 1, n)
  }

  function AllocId(s: Ids): (id: nat) {
    var k := FirstFree(s.used, 0, s.capacity);
    if k < s.capacity then k else (s.capacity + s.unmanaged) % TWO32
  }

  function AfterAlloc(s: Ids): (r: Ids) {
    var k := FirstFree(s.used, 0, s.capacity);
    if k < s.capacity then s.(used := s.used + {k}) else s.(unmanaged := (s.unmanaged + 1) % TWO32)
  }

  function AfterFree(s: Ids, id: nat): (r: Ids) {
    if id < s.capacity then s.(used := s.used - {id}) else s
  }

  ghost function UsedSet(mask: seq<bv64>): (r: set<nat>) {
    set id: nat | id < 64 * |mask| && Used(mask, id)
  }

  lemma UsedSetUpdate(a: seq<bv64>, b: seq<bv64>, id: nat, v: bool)
    requires OneId(a, b, id, v) && id < 64 * |a|
    ensures UsedSet(b) == if v then UsedSet(a) + {id} else UsedSet(a) - {id}
  {
    hide Used;
  }

  lemma FirstFreeIs(mask: seq<bv64>, id: nat)
    requires id <= 64 * |mask| && AllUsed(mask, 0, id) && (id < 64 * |mask| ==> !Used(mask, id))
    ensures FirstFree(UsedSet(mask), 0, 64 * |mask|) == id
  {
    hide Used;
    assert forall i: nat :: i < id ==> i in UsedSet(mask);
    assert id < 64 * |mask| ==> id !in UsedSet(mask);
  }

  /** The IDs lo .. hi. */
  function IdRange(lo: nat, hi: nat): (r: set<nat>)
    ensures forall id: nat :: id in r <==> lo <= id < hi
    decreases hi
  {
    if hi <= lo then {} else IdRange(lo, hi - 1) + {hi - 1}
  }

  class Pool {
    const mask: array<bv64>
    var idx: nat              // no word below this one has room
    var unmanaged: nat

    /** The search hint is sound: everything below it is taken. */
    ghost predicate Valid()
      reads this, mask
    {
      && idx <= mask.Length <= 4 && unmanaged < TWO32
      && AllUsed(mask[..], 0, 64 * idx)
    }

    ghost function State(): (s: Ids)
      reads this, mask
    {
      Ids(64 * mask.Length, UsedSet(mask[..]), unmanaged)
    }

    constructor (words: nat)
      requires words <= 4
      ensures Valid() && fresh(mask) && idx == 0 && State() == Ids(64 * words, {}, 0)
    {
      mask := new bv64[words](_ => 0);
      idx, unmanaged := 0, 0;
      new;
      NoneUsed(mask[..]);
    }

    /** Takes the smallest free managed ID; the hint spares the words it skips. */
    method AllocManaged() returns (r: int)
      requires Valid()
      modifies mask, `idx
      ensures Valid() && unmanaged == old(unmanaged)
      ensures var k := FirstFree(old(State()).used, 0, 64 * mask.Length);
              if k == 64 * mask.Length then r == -1 && State() == old(State())
              else r == k && State() == old(State()).(used := old(State()).used + {k})
    {
      hide Used, UsedSet, FirstFree;
      ghost var before := mask[..];
      r := FindBit(mask, idx);
      if r < 0 {
        FirstFreeIs(before, 64 * mask.Length);
        idx := mask.Length;
      } else {
        FirstFreeIs(before, 64 * idx + r);
        UsedSetUpdate(before, mask[..], 64 * idx + r, true);
        var t := r / 64;
        r := r + 64 * idx;
        idx := idx + t;
      }
    }

    /** AllocSurfaceID: falls back on the counter when the mask is full. */
    method AllocSurfaceID() returns (r: nat)
      requires Valid()
      modifies mask, `idx, `unmanaged
      ensures Valid() && r == AllocId(old(State())) && State() == AfterAlloc(old(State()))
    {
      hide Used, UsedSet, FirstFree, AllUsed;
      var k := AllocManaged();
      if k < 0 {
        r := (64 * mask.Length + unmanaged) % TWO32;
        unmanaged := (unmanaged + 1) % TWO32;
      } else {
        r := k;
      }
    }

    /** AllocGMRID: -1 when the mask is full. */
    method AllocGMRID() returns (r: int)
      requires Valid()
      modifies mask, `idx
      ensures Valid()
      ensures var was := old(State());
              var k := FirstFree(was.used, 0, was.capacity);
              if k == was.capacity then r == -1 && State() == was else r == k && State() == AfterAlloc(was)
    {
      hide Used, UsedSet, FirstFree, AllUsed;
      r := AllocManaged();
    }

    /** FreeSurfaceID and FreeGMRID: clears the bit and moves the hint back. */
    method FreeID(id: nat)
      requires Valid()
      modifies mask, `idx
      ensures Valid() && State() == AfterFree(old(State()), id)
    {
      hide Used, UsedSet, AndNot, Bit;
      var w := id / 64;
      if w >= mask.Length { return; }
      ghost var before := mask[..];
      ClearId(before, id);
      mask[w] := AndNot(mask[w], Bit(id % 64));
      assert mask[..] == before[w := AndNot(before[w], Bit(id % 64))];
      UsedSetUpdate(before, mask[..], id, false);
      if w < idx { idx := w; }
    }

    /** Start-up of the GMR pool: IDs the device does not have are marked used. */
    method Reserve(first: nat)
      requires Valid() && idx == 0 && State().used == {}
      modifies mask
      ensures Valid() && State() == old(State()).(used := IdRange(first, 64 * mask.Length))
    {
      hide Used, Has;
      ghost var before := mask[..];
      MaskArray(mask, first, 64 * mask.Length);
      forall id: nat | id < 64 * mask.Length ensures Used(mask[..], id) <==> first <= id {
        assert Used(before, id) ==> id in UsedSet(before);
      }
    }
  }

  lemma NoneUsed(mask: seq<bv64>)
    requires forall w :: 0 <= w < |mask| ==> mask[w] == 0
    ensures UsedSet(mask) == {}
  {
    hide Halves, Odd;
    ZeroStep();
    forall id: nat | id < 64 * |mask| ensures !Used(mask, id) { HalvesZero(id % 64); }
  }

  // ----- Runs -----

  datatype IdCall = Take | Drop(id: nat)

  /** `held` are the IDs handed out and not yet given back. */
  ghost predicate Holds(s: Ids, held: set<nat>) {
    && (forall id :: id in s.used <==> id in held && id < s.capacity)
    && (forall id :: id in held ==> id < s.capacity + s.unmanaged)
  }

  /** Until the counter wraps, an ID that is handed out is not held by anyone. */
  lemma AllocFresh(s: Ids, held: set<nat>)
    requires Holds(s, held) && s.capacity > 0 && s.capacity + s.unmanaged < TWO32
    ensures AllocId(s) !in held && Holds(AfterAlloc(s), held + {AllocId(s)})
  {
  }

  ghost function AfterCall(s: Ids, c: IdCall): (r: Ids) {
    if c.Take? then AfterAlloc(s) else AfterFree(s, c.id)
  }

  ghost function HeldAfter(s: Ids, held: set<nat>, c: IdCall): (r: set<nat>) {
    if c.Take? then held + {AllocId(s)} else held - {c.id}
  }

  /** Every Take of the run hands out an ID that nobody holds; held IDs may be
      dropped in any order. */
  ghost predicate AlwaysFresh(s: Ids, held: set<nat>, calls: seq<IdCall>)
    decreases |calls|
  {
    calls != [] ==>
      && (calls[0].Take? ==> AllocId(s) !in held)
      && AlwaysFresh(AfterCall(s, calls[0]), HeldAfter(s, held, calls[0]), calls[1..])
  }

  /** Live IDs are pairwise distinct over every run that is too short to wrap the
      32-bit counter. */
  lemma {:induction false} RunFresh(s: Ids, held: set<nat>, calls: seq<IdCall>)
    requires Holds(s, held) && s.capacity > 0 && s.capacity + s.unmanaged + |calls| <= TWO32
    ensures AlwaysFresh(s, held, calls)
    decreases |calls|
  {
    if calls != [] {
      if calls[0].Take? { AllocFresh(s, held); }
      RunFresh(AfterCall(s, calls[0]), HeldAfter(s, held, calls[0]), calls[1..]);
    }
  }

  /** The exact limit: with every ID handed out so far still held, the next one is
      fresh if and only if the 32-bit counter has not wrapped. */
  lemma FreshUntilWrap(capacity: nat, n: nat)
    requires 0 < capacity < TWO32
    ensures var s := Ids(capacity, IdRange(0, capacity), n % TWO32);
            var held := IdRange(0, if capacity + n < TWO32 then capacity + n else TWO32);
            AllocId(s) !in held <==> capacity + n < TWO32
  {
    hide IdRange, FirstFree;
    assert FirstFree(IdRange(0, capacity), 0, capacity) == capacity;
  }
}
