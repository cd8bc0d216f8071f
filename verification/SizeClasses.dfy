/** Sizes in bytes, size classes, and the loops that find them. */
module SizeClasses {
  import opened Dyadic
  import opened Heaps
  import opened Accounting
  import C = Cover
  import opened HeapOps
  import opened Runs
  import opened AllocatorFrame

  /** size <<= 1 on a 64-bit size_t. */
  function DoubleSize(size: nat): (r: nat)
    ensures 2 * size < 0x1_0000_0000_0000_0000 ==> r == 2 * size
  {
    2 * size % 0x1_0000_0000_0000_0000
  }

  lemma Pow2Table()
    ensures Pow2(12) == 4096 && Pow2(13) == 8192
  {
    assert Pow2(3) == 8 && Pow2(6) == 64 && Pow2(9) == 512;
  }

  /** The size class is the one the doubling loop stops at. */
  lemma ClassIs(bytes: nat, bits: nat)
    requires bytes <= Bytes(Pow2(bits)) && (bits > 0 ==> bytes > Bytes(Pow2(bits - 1)))
    ensures Class(bytes) == bits
  {
    var c := Class(bytes);
    if c < bits { Pow2Monotone(c, bits - 1); }
    if bits < c { Pow2Monotone(bits, c - 1); }
  }

  lemma ClassAbove(bytes: nat, bits: nat)
    requires bytes > Bytes(Pow2(bits))
    ensures Class(bytes) > bits
  {
    var c := Class(bytes);
    if c <= bits { Pow2Monotone(c, bits); }
  }

  /** Rounds a size up to a class, as the loop at the top of Malloc does. */
  method SizeClass(bytes: nat) returns (status: Status, bits: nat)
    ensures status == if Class(bytes) > NUM_SIZES then NoResources else Success
    ensures status == Success ==> bits == Class(bytes)
  {
    Pow2Table();
    hide Class;
    var size := 4096;
    bits := 0;
    while size < bytes
      invariant 0 <= bits <= NUM_SIZES && size == Bytes(Pow2(bits))
      invariant bits > 0 ==> bytes > Bytes(Pow2(bits - 1))
      decreases NUM_SIZES - bits
    {
      ClassAbove(bytes, bits);
      if bits >= NUM_SIZES { return NoResources, bits; }
      Pow2Monotone(bits + 1, NUM_SIZES);
      size := DoubleSize(size);
      if size == 0 { return NoResources, bits; }
      bits := bits + 1;
    }
    ClassIs(bytes, bits);
    status := Success;
  }

  /** The smallest class that holds `size`, found by doubling. */
  method FitClass(size: nat, bits: nat) returns (canBits: nat)
    requires 0 < size <= Bytes(Pow2(bits))
    ensures canBits == Class(size) <= bits
  {
    var len := 4096;
    canBits := 0;
    hide Class;
    while len < size
      invariant canBits <= bits && len == Bytes(Pow2(canBits))
      invariant canBits > 0 ==> size > Bytes(Pow2(canBits - 1))
      decreases bits - canBits
    {
      if canBits >= bits { Pow2Monotone(bits, canBits); }
      len := 2 * len;
      canBits := canBits + 1;
    }
    ClassIs(size, canBits);
  }

  lemma SmallerClass(size: nat, bits: nat)
    ensures Class(size) > bits <==> size > Bytes(Pow2(bits))
  {
    var c := Class(size);
    if c <= bits { Pow2Monotone(c, bits); } else { Pow2Monotone(bits, c - 1); }
  }

  lemma CannotMalloc(h: Heap, bits: nat)
    requires bits >= |h.lists|
    ensures !CanMalloc(h, bits) && MallocStep(h, bits) == h
  {
  }

  lemma TooLittle(h: Heap, bits: nat)
    requires Inv(h) && CanMalloc(h, bits)
    ensures Pow2(bits) <= FreeBlocks(h)
  {
    var ret := FirstList(h.lists, bits);
    assert h.lists[ret][0] in h.lists[ret];
    FreeAtLeast(h, h.lists[ret][0], ret);
    Pow2Monotone(bits, ret);
  }

  /** The largest chunk that fits at i, starting from the size used last.  ups
      and downs count the trips of the two inner loops. */
  method NextSize(i: nat, past: nat, oldBits: nat, oldLen: nat)
    returns (tryBits: nat, tryLen: nat, ghost ups: nat, ghost downs: nat)
    requires i < past && oldBits < NUM_SIZES && Aligned(i, oldBits) && oldLen == Pow2(oldBits)
    ensures tryBits == C.Fit(i, past, NUM_SIZES - 1) && tryLen == Pow2(tryBits)
    ensures tryBits - oldBits == ups - downs
    ensures past - i < Pow2(oldBits) ==> ups == 0 && downs > 0
    ensures past - i >= Pow2(oldBits) ==> downs == 0
  {
    ups, downs := 0, 0;
    tryBits, tryLen := oldBits, oldLen;
    while tryBits < NUM_SIZES - 1
      invariant oldBits <= tryBits < NUM_SIZES && tryLen == Pow2(tryBits)
      invariant ups == tryBits - oldBits
      invariant ups > 0 ==> C.Fits(i, past, tryBits)
    {
      var nextLen := 2 * tryLen;
      AlignedIsMod(i, tryBits + 1);
      if i + nextLen > past { break; }
      if i % nextLen != 0 { break; }
      tryLen := nextLen;
      tryBits := tryBits + 1;
      ups := ups + 1;
    }
    if ups > 0 { C.FitsSmaller(i, past, tryBits, oldBits); }
    assert tryBits < NUM_SIZES - 1 ==> !C.Fits(i, past, tryBits + 1);
    while true
      invariant tryBits < NUM_SIZES && tryLen == Pow2(tryBits)
      invariant tryBits - oldBits == ups - downs
      invariant downs > 0 ==> ups == 0 && past - i < Pow2(oldBits)
      invariant tryBits < NUM_SIZES - 1 ==> !C.Fits(i, past, tryBits + 1)
      invariant ups > 0 ==> C.Fits(i, past, tryBits)
      decreases tryBits
    {
      AlignedIsMod(i, tryBits);
      if i + tryLen <= past && i % tryLen == 0 { break; }
      tryBits := tryBits - 1;
      tryLen := tryLen / 2;
      downs := downs + 1;
    }
    C.FitUnique(i, past, NUM_SIZES - 1, tryBits);
  }

  /** After the chunk cut at i, the next start is aligned to its size; and if the
      size had to come down, less than that size is left. */
  lemma StepBound(i: nat, past: nat, wasBits: nat, tryBits: nat)
    requires i < past && wasBits < NUM_SIZES && Aligned(i, wasBits) && tryBits == C.Fit(i, past, NUM_SIZES - 1)
    ensures Aligned(i + Pow2(tryBits), tryBits)
    ensures tryBits < wasBits ==> past - (i + Pow2(tryBits)) < Pow2(tryBits)
  {
    AlignedNext(i, tryBits);
    if tryBits < wasBits { AlignedWeaken(i, wasBits, tryBits + 1); }
  }
}
