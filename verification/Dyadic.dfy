/** Powers of two, aligned ("dyadic") block ranges and buddies.

    A chunk of size class b that starts at block o covers the blocks
    o .. o + Pow2(b) and is only ever created with Aligned(o, b).  Everything
    the allocator needs to know about such ranges is proved here with linear
    arithmetic, by halving. */
module Dyadic {

  function Pow2(n: nat): (r: nat)
    ensures r >= 1
  {
    if n == 0 then 1 else 2 * Pow2(n - 1)
  }

  /** The low b bits of o are zero; the code tests `o & ((1 << b) - 1)`. */
  predicate Aligned(o: nat, b: nat) {
    b == 0 || (o % 2 == 0 && Aligned(o / 2, b - 1))
  }

  /** o >> b. */
  function Shift(o: nat, b: nat): (r: nat) {
    if b == 0 then o else Shift(o / 2, b - 1)
  }

  /** o XOR (1 << b). */
  function FlipBit(o: nat, b: nat): (r: nat) {
    if b == 0 then (if o % 2 == 0 then o + 1 else o - 1)
    else 2 * FlipBit(o / 2, b - 1) + o % 2
  }

  lemma {:induction false} Pow2Monotone(b: nat, c: nat)
    requires b <= c
    ensures Pow2(b) <= Pow2(c)
  {
    if b < c { Pow2Monotone(b, c - 1); }
  }

  lemma {:induction false} Pow2Strict(b: nat, c: nat)
    requires b < c
    ensures 2 * Pow2(b) <= Pow2(c)
  {
    Pow2Monotone(b + 1, c);
  }

  /** The recursive test is the usual remainder test. */
  lemma {:induction false} AlignedIsMod(o: nat, b: nat)
    ensures Aligned(o, b) <==> o % Pow2(b) == 0
  {
    if b > 0 {
      AlignedIsMod(o / 2, b - 1);
      HalveMod(o, Pow2(b - 1));
    }
  }

  lemma HalveMod(o: nat, p: nat)
    requires p > 0
    ensures o % (2 * p) == 2 * (o / 2 % p) + o % 2
  {
    var q, r := o / 2 / p, o / 2 % p;
    assert o / 2 == p * q + r;
    assert 2 * (p * q) == (2 * p) * q;
    DivModUnique(o, 2 * p, q, 2 * r + o % 2);
  }

  lemma DivModUnique(n: nat, d: nat, q: nat, r: nat)
    requires d > 0 && r < d && n == d * q + r
    ensures n / d == q && n % d == r
  {
    MultipleInRange(d, n / d - q);
    assert d * (n / d - q) == r - n % d;
  }

  lemma MultipleInRange(d: nat, k: int)
    requires d > 0
    ensures 0 - d < d * k < d ==> k == 0
  {
    if k >= 1 {
      assert d * k >= d * 1;
    } else if k <= -1 {
      assert d * k <= d * -1;
    }
  }

  lemma {:induction false} ShiftInjective(o: nat, p: nat, b: nat)
    requires Aligned(o, b) && Aligned(p, b) && Shift(o, b) == Shift(p, b)
    ensures o == p
  {
    if b > 0 { ShiftInjective(o / 2, p / 2, b - 1); }
  }

  lemma {:induction false} ShiftBound(o: nat, b: nat, n: nat)
    requires Aligned(o, b) && o + Pow2(b) <= n
    ensures Shift(o, b) < Shift(n, b)
  {
    if b > 0 { ShiftBound(o / 2, b - 1, n / 2); }
  }

  lemma {:induction false} AlignedWeaken(o: nat, b: nat, c: nat)
    requires Aligned(o, b) && c <= b
    ensures Aligned(o, c)
  {
    if c > 0 { AlignedWeaken(o / 2, b - 1, c - 1); }
  }

  /** Exactly one of two neighbouring chunks of class b starts a chunk of class b + 1. */
  lemma {:induction false} AlignedNext(o: nat, b: nat)
    requires Aligned(o, b)
    ensures Aligned(o + Pow2(b), b)
    ensures Aligned(o + Pow2(b), b + 1) <==> !Aligned(o, b + 1)
  {
    if b > 0 {
      AlignedNext(o / 2, b - 1);
      assert (o + Pow2(b)) / 2 == o / 2 + Pow2(b - 1);
    }
  }

  lemma {:induction false} AlignedSum(o: nat, b: nat, c: nat)
    requires Aligned(o, b) && c <= b
    ensures Aligned(o + Pow2(c), c)
    ensures c < b ==> !Aligned(o + Pow2(c), c + 1)
  {
    AlignedWeaken(o, b, c);
    AlignedNext(o, c);
    if c < b { AlignedWeaken(o, b, c + 1); }
  }

  lemma {:induction false} FlipBitAligned(o: nat, b: nat)
    requires Aligned(o, b)
    ensures Aligned(o, b + 1) ==> FlipBit(o, b) == o + Pow2(b)
    ensures !Aligned(o, b + 1) ==> o >= Pow2(b) && FlipBit(o, b) == o - Pow2(b)
    ensures Aligned(FlipBit(o, b), b)
    ensures Aligned(FlipBit(o, b), b + 1) <==> !Aligned(o, b + 1)
  {
    if b > 0 {
      FlipBitAligned(o / 2, b - 1);
      assert Aligned(o, b + 1) <==> Aligned(o / 2, b);
      assert FlipBit(o, b) / 2 == FlipBit(o / 2, b - 1);
    } else {
      assert Aligned(o / 2, b);
    }
  }

  lemma {:induction false} FlipBitInvolution(o: nat, b: nat)
    ensures FlipBit(FlipBit(o, b), b) == o
  {
    if b > 0 { FlipBitInvolution(o / 2, b - 1); }
  }

  ghost predicate Within(x: int, o: nat, b: nat) {
    o <= x < o + Pow2(b)
  }

  /** Two aligned ranges that share a block are nested. */
  lemma {:induction false} Nested(o: nat, b: nat, p: nat, c: nat)
    requires Aligned(o, b) && Aligned(p, c) && c <= b
    requires p < o + Pow2(b) && o < p + Pow2(c)
    ensures o <= p && p + Pow2(c) <= o + Pow2(b)
  {
    if c > 0 { Nested(o / 2, b - 1, p / 2, c - 1); }
  }

  /** A range of a power of two length at the end of an aligned one is aligned. */
  lemma {:induction false} TailAligned(x: nat, k: nat, o: nat, b: nat)
    requires Aligned(o, b) && o <= x && x + Pow2(k) == o + Pow2(b)
    ensures k <= b && Aligned(x, k)
  {
    if k > b { Pow2Strict(b, k); }
    if k > 0 { TailAligned(x / 2, k - 1, o / 2, b - 1); }
  }

  /** A strictly larger aligned range that meets one buddy holds the other as well. */
  lemma {:induction false} NestedBuddy(o: nat, b: nat, p: nat, c: nat)
    requires Aligned(o, b) && Aligned(p, c) && c < b
    requires p < o + Pow2(b) && o < p + Pow2(c)
    ensures o <= p && p + Pow2(c) <= o + Pow2(b)
    ensures o <= FlipBit(p, c) && FlipBit(p, c) + Pow2(c) <= o + Pow2(b)
  {
    FlipBitAligned(p, c);
    var parent := if Aligned(p, c + 1) then p else p - Pow2(c);
    Nested(o, b, p, c);
    Nested(o, b, parent, c + 1);
  }
}
