/** Bits of a 64-bit mask word, and the bit tricks used to allocate from one. */
module MaskBits {

  const ALL: bv64 := 0xFFFF_FFFF_FFFF_FFFF

  function Half(x: bv64): bv64 { x >> 1 }
  predicate Odd(x: bv64) { x & 1 == 1 }
  function Or(x: bv64, y: bv64): bv64 { x | y }
  function AndNot(x: bv64, y: bv64): bv64 { x & !y }
  function Isolate(m: bv64): bv64 { !m & (m + 1) }

  /** x >> k, one place at a time. */
  function Halves(x: bv64, k: nat): (r: bv64) {
    if k == 0 then x else Halves(Half(x), k - 1)
  }

  /** Bit k of x. */
  predicate Has(x: bv64, k: nat) {
    Odd(Halves(x, k))
  }

  // ----- Single steps, decided by the bit-vector theory alone -----

  lemma OrStep(x: bv64, y: bv64)
    ensures Half(Or(x, y)) == Or(Half(x), Half(y))
    ensures Odd(Or(x, y)) <==> Odd(x) || Odd(y)
  {
  }

  lemma AndNotStep(x: bv64, y: bv64)
    ensures Half(AndNot(x, y)) == AndNot(Half(x), Half(y))
    ensures Odd(AndNot(x, y)) <==> Odd(x) && !Odd(y)
  {
  }

  lemma ZeroStep()
    ensures Half(0) == 0 && !Odd(0) && Half(1) == 0 && Odd(1)
  {
  }

  /** ~m & (m + 1) on an even word is 1; on an odd word it is twice that of its half. */
  lemma IsolateStep(m: bv64)
    ensures !Odd(m) ==> Isolate(m) == 1
    ensures Odd(m) && m != ALL ==> !Odd(Isolate(m)) && Half(Isolate(m)) == Isolate(Half(m))
    ensures m == ALL <==> Isolate(m) == 0
  {
    hide Isolate, Half, Odd;
    IsolateEven(m);
    IsolateOdd(m);
    IsolateZero(m);
  }

  lemma IsolateEven(m: bv64)
    ensures !Odd(m) ==> Isolate(m) == 1
  {
  }

  lemma IsolateOdd(m: bv64)
    ensures Odd(m) && m != ALL ==> !Odd(Isolate(m)) && Half(Isolate(m)) == Isolate(Half(m))
  {
  }

  lemma IsolateZero(m: bv64)
    ensures m == ALL <==> Isolate(m) == 0
  {
  }

  lemma OnesStep(w: bv64)
    requires w & (w + 1) == 0 && w != 0
    ensures Odd(w) && Half(w) & (Half(w) + 1) == 0
  {
  }

  // ----- Shifting by more than one place -----

  lemma {:induction false} HalvesAdd(x: bv64, a: nat, b: nat)
    ensures Halves(x, a + b) == Halves(Halves(x, a), b)
    decreases a
  {
    hide Half;
    if a > 0 { HalvesAdd(Half(x), a - 1, b); }
  }

  lemma {:induction false} HalvesZero(k: nat)
    ensures Halves(0, k) == 0
  {
    ZeroStep();
    hide Half;
    if k > 0 { HalvesZero(k - 1); }
  }

  function Shr2(x: bv64): bv64 { x >> 2 }
  function Shr4(x: bv64): bv64 { x >> 4 }
  function Shr8(x: bv64): bv64 { x >> 8 }
  function Shr16(x: bv64): bv64 { x >> 16 }
  function Shr32(x: bv64): bv64 { x >> 32 }

  lemma Shr2Step(x: bv64)
    ensures Half(Half(x)) == Shr2(x)
  {
  }

  lemma Shr4Step(x: bv64)
    ensures Shr2(Shr2(x)) == Shr4(x)
  {
  }

  lemma Shr8Step(x: bv64)
    ensures Shr4(Shr4(x)) == Shr8(x)
  {
  }

  lemma Shr16Step(x: bv64)
    ensures Shr8(Shr8(x)) == Shr16(x)
  {
  }

  lemma Shr32Step(x: bv64)
    ensures Shr16(Shr16(x)) == Shr32(x)
  {
  }

  lemma Halves2(x: bv64)
    ensures Halves(x, 1) == Half(x) && Halves(x, 2) == Shr2(x)
  {
    Shr2Step(x);
    hide Half, Shr2;
    assert Halves(x, 2) == Halves(Half(x), 1) == Half(Half(x));
  }

  lemma Halves4(x: bv64)
    ensures Halves(x, 4) == Shr4(x)
  {
    hide Halves, Half, Shr2, Shr4, Shr8, Shr16, Shr32;
    Shr4Step(x);
    HalvesAdd(x, 2, 2);
    Halves2(x);
    Halves2(Shr2(x));
  }

  lemma Halves8(x: bv64)
    ensures Halves(x, 8) == Shr8(x)
  {
    hide Halves, Half, Shr2, Shr4, Shr8, Shr16, Shr32;
    Shr8Step(x);
    HalvesAdd(x, 4, 4);
    Halves4(x);
    Halves4(Shr4(x));
  }

  lemma Halves16(x: bv64)
    ensures Halves(x, 16) == Shr16(x)
  {
    hide Halves, Half, Shr2, Shr4, Shr8, Shr16, Shr32;
    Shr16Step(x);
    HalvesAdd(x, 8, 8);
    Halves8(x);
    Halves8(Shr8(x));
  }

  lemma Halves32(x: bv64)
    ensures Halves(x, 32) == Shr32(x)
  {
    hide Halves, Half, Shr2, Shr4, Shr8, Shr16, Shr32;
    Shr32Step(x);
    HalvesAdd(x, 16, 16);
    Halves16(x);
    Halves16(Shr16(x));
  }

  // ----- Single bits -----

  lemma {:induction false} HalvesOr(x: bv64, y: bv64, k: nat)
    ensures Halves(Or(x, y), k) == Or(Halves(x, k), Halves(y, k))
    decreases k
  {
    OrStep(x, y);
    hide Half, Or, Odd;
    if k > 0 { HalvesOr(Half(x), Half(y), k - 1); }
  }

  lemma HasOr(x: bv64, y: bv64, k: nat)
    ensures Has(Or(x, y), k) <==> Has(x, k) || Has(y, k)
  {
    hide Half, Or, Odd, Halves;
    HalvesOr(x, y, k);
    OrStep(Halves(x, k), Halves(y, k));
  }

  lemma {:induction false} HalvesAndNot(x: bv64, y: bv64, k: nat)
    ensures Halves(AndNot(x, y), k) == AndNot(Halves(x, k), Halves(y, k))
    decreases k
  {
    AndNotStep(x, y);
    hide Half, AndNot, Odd;
    if k > 0 { HalvesAndNot(Half(x), Half(y), k - 1); }
  }

  lemma HasAndNot(x: bv64, y: bv64, k: nat)
    ensures Has(AndNot(x, y), k) <==> Has(x, k) && !Has(y, k)
  {
    hide Half, AndNot, Odd, Halves;
    HalvesAndNot(x, y, k);
    AndNotStep(Halves(x, k), Halves(y, k));
  }

  /** If the highest one bit of ~m & (m + 1) is bit k, then that is its only bit,
      and bit k is the lowest zero bit of m. */
  lemma {:induction false} IsolateIsLowestZero(m: bv64, k: nat, j: nat)
    requires Halves(Isolate(m), k) == 1
    ensures Has(Isolate(m), j) <==> j == k
    ensures !Has(m, k) && (j < k ==> Has(m, j))
    decreases k
  {
    IsolateStep(m);
    ZeroStep();
    hide Half, Odd, Isolate;
    if k == 0 {
      if j > 0 { HalvesZero(j - 1); }
      assert Odd(Isolate(m));
    } else {
      HalvesZero(k - 1);
      HalvesZero(k);
      IsolateIsLowestZero(Half(m), k - 1, if j > 0 then j - 1 else 0);
    }
  }

  /** Every one of the 64 bits of a full word is set. */
  lemma HasAll(k: nat)
    requires k < 64
    ensures Has(ALL, k)
  {
    AllNotExhausted();
    OnesStay(ALL, k);
    HalvesAdd(ALL, k, 63 - k);
    HalvesZero(63 - k);
  }

  lemma AllNotExhausted()
    ensures Halves(ALL, 63) == 1
  {
    hide Halves;
    HalvesAdd(ALL, 32, 31);
    Halves32(ALL);
    HalvesAdd(ALL >> 32, 16, 15);
    Halves16(ALL >> 32);
    HalvesAdd(ALL >> 48, 8, 7);
    Halves8(ALL >> 48);
    HalvesAdd(ALL >> 56, 4, 3);
    Halves4(ALL >> 56);
    HalvesAdd(ALL >> 60, 2, 1);
    Halves2(ALL >> 60);
    Halves2(ALL >> 62);
  }

  lemma {:induction false} OnesStay(w: bv64, k: nat)
    requires w & (w + 1) == 0
    ensures Halves(w, k) != 0 ==> Odd(Halves(w, k))
    decreases k
  {
    if w == 0 {
      HalvesZero(k);
    } else {
      OnesStep(w);
      hide Half, Odd;
      if k > 0 { OnesStay(Half(w), k - 1); }
    }
  }

  // ----- 1 << k -----

  function Double(x: bv64): bv64 { x << 1 }
  predicate AtMost(x: bv64, y: bv64) { x <= y }

  function Bit(k: nat): (r: bv64) {
    if k == 0 then 1 else Double(Bit(k - 1))
  }

  lemma DoubleStep(x: bv64, w: bv64)
    requires AtMost(x, Half(w))
    ensures AtMost(Double(x), w) && Half(Double(x)) == x && !Odd(Double(x))
  {
  }

  lemma {:induction false} BitBound(k: nat)
    requires k < 64
    ensures AtMost(Bit(k), Halves(ALL, 63 - k))
  {
    if k == 0 {
      AllNotExhausted();
    } else {
      BitBound(k - 1);
      HalvesAdd(ALL, 63 - k, 1);
      Halves2(Halves(ALL, 63 - k));
      hide Double, AtMost, Half, Odd;
      DoubleStep(Bit(k - 1), Halves(ALL, 63 - k));
    }
  }

  /** Exactly bit k of 1 << k is set. */
  lemma {:induction false} HasBit(k: nat, j: nat)
    requires k < 64
    ensures Has(Bit(k), j) <==> j == k
    decreases k
  {
    ZeroStep();
    hide Double, AtMost, Half, Odd;
    if k == 0 {
      if j > 0 { HalvesZero(j - 1); }
    } else {
      BitBound(k - 1);
      HalvesAdd(ALL, 63 - k, 1);
      Halves2(Halves(ALL, 63 - k));
      DoubleStep(Bit(k - 1), Halves(ALL, 63 - k));
      if j > 0 { HasBit(k - 1, j - 1); }
    }
  }

  // ----- Logarithms -----

  /** The largest value of s bits, for the widths the logarithm halves through. */
  function Limit(s: nat): bv64 {
    match s
    case 32 => 0xFFFF_FFFF
    case 16 => 0xFFFF
    case 8 => 0xFF
    case 4 => 0xF
    case 2 => 0x3
    case _ => 0x1
  }

  /** The upper half of a value of 2 * s bits. */
  function High(x: bv64, s: nat): bv64 {
    match s
    case 16 => x & 0xFFFF_0000
    case 8 => x & 0xFF00
    case 4 => x & 0xF0
    case 2 => x & 0xC
    case _ => x & 0x2
  }

  function ShrBy(x: bv64, s: nat): bv64 {
    match s
    case 16 => x >> 16
    case 8 => x >> 8
    case 4 => x >> 4
    case 2 => x >> 2
    case _ => x >> 1
  }

  predicate Round(s: nat) { s == 16 || s == 8 || s == 4 || s == 2 || s == 1 }

  lemma Narrow16(x: bv64)
    requires AtMost(x, Limit(32))
    ensures High(x, 16) != 0 ==> AtMost(ShrBy(x, 16), Limit(16)) && ShrBy(x, 16) != 0 && x != 0
    ensures High(x, 16) == 0 ==> AtMost(x, Limit(16))
  {
  }

  lemma Narrow8(x: bv64)
    requires AtMost(x, Limit(16))
    ensures High(x, 8) != 0 ==> AtMost(ShrBy(x, 8), Limit(8)) && ShrBy(x, 8) != 0 && x != 0
    ensures High(x, 8) == 0 ==> AtMost(x, Limit(8))
  {
  }

  lemma Narrow4(x: bv64)
    requires AtMost(x, Limit(8))
    ensures High(x, 4) != 0 ==> AtMost(ShrBy(x, 4), Limit(4)) && ShrBy(x, 4) != 0 && x != 0
    ensures High(x, 4) == 0 ==> AtMost(x, Limit(4))
  {
  }

  lemma Narrow2(x: bv64)
    requires AtMost(x, Limit(4))
    ensures High(x, 2) != 0 ==> AtMost(ShrBy(x, 2), Limit(2)) && ShrBy(x, 2) != 0 && x != 0
    ensures High(x, 2) == 0 ==> AtMost(x, Limit(2))
  {
  }

  lemma Narrow1(x: bv64)
    requires AtMost(x, Limit(2))
    ensures High(x, 1) != 0 ==> AtMost(ShrBy(x, 1), Limit(1)) && ShrBy(x, 1) != 0 && x != 0
    ensures High(x, 1) == 0 ==> AtMost(x, Limit(1))
  {
  }

  lemma RoundFacts(x: bv64, s: nat)
    requires Round(s) && AtMost(x, Limit(2 * s))
    ensures High(x, s) != 0 ==> AtMost(ShrBy(x, s), Limit(s)) && ShrBy(x, s) != 0 && x != 0
    ensures High(x, s) == 0 ==> AtMost(x, Limit(s))
  {
    hide AtMost, Limit, High, ShrBy;
    if s == 16 { Narrow16(x); }
    else if s == 8 { Narrow8(x); }
    else if s == 4 { Narrow4(x); }
    else if s == 2 { Narrow2(x); }
    else { Narrow1(x); }
  }

  lemma HalvesBy(x: bv64, s: nat)
    requires Round(s)
    ensures Halves(x, s) == ShrBy(x, s)
  {
    hide Halves;
    if s == 16 { Halves16(x); } else if s == 8 { Halves8(x); } else if s == 4 { Halves4(x); } else { Halves2(x); }
  }

  /** One line of log_2_32. */
  method LogRound(x: bv64, y: nat, s: nat, ghost x0: bv64) returns (x': bv64, y': nat)
    requires Round(s) && AtMost(x, Limit(2 * s)) && Halves(x0, y) == x
    ensures AtMost(x', Limit(s)) && Halves(x0, y') == x' && (x' == 0 <==> x == 0)
    ensures y' == y || y' == y + s
  {
    hide Halves, AtMost, Limit, High, ShrBy;
    RoundFacts(x, s);
    x', y' := x, y;
    if High(x, s) != 0 {
      HalvesAdd(x0, y, s);
      HalvesBy(x, s);
      x', y' := ShrBy(x, s), y + s;
    }
  }

  lemma LastRound(x: bv64)
    requires AtMost(x, Limit(1))
    ensures if Odd(x) then x == 1 else x == 0
  {
  }

  /** The position of the highest one bit of a 32-bit value (log_2_32). */
  method Log2_32(x0: bv64) returns (y: int)
    requires AtMost(x0, Limit(32))
    ensures x0 == 0 ==> y == -1
    ensures x0 != 0 ==> 0 <= y < 32 && Halves(x0, y) == 1
  {
    hide Halves, AtMost, Limit, Odd;
    HalvesNone(x0);
    var x, z := LogRound(x0, 0, 16, x0);
    x, z := LogRound(x, z, 8, x0);
    x, z := LogRound(x, z, 4, x0);
    x, z := LogRound(x, z, 2, x0);
    x, z := LogRound(x, z, 1, x0);
    LastRound(x);
    if !Odd(x) { return -1; }
    y := z;
  }

  lemma HighWord(x: bv64)
    ensures x & 0xFFFF_FFFF_0000_0000 != 0 ==> AtMost(Shr32(x), Limit(32)) && Shr32(x) != 0 && x != 0
    ensures x & 0xFFFF_FFFF_0000_0000 == 0 ==> AtMost(x, Limit(32))
  {
  }

  /** The position of the highest one bit of a 64-bit value (log_2_64). */
  method Log2_64(x: bv64) returns (y: int)
    ensures x == 0 ==> y == -1
    ensures x != 0 ==> 0 <= y < 64 && Halves(x, y) == 1
  {
    hide Halves, AtMost, Limit, Shr32;
    HighWord(x);
    if x & 0xFFFF_FFFF_0000_0000 != 0 {
      var low := Log2_32(Shr32(x));
      Halves32(x);
      HalvesAdd(x, 32, low);
      y := 32 + low;
    } else {
      y := Log2_32(x);
    }
  }

  lemma HalvesNone(x: bv64)
    ensures Halves(x, 0) == x
  {
  }
}
