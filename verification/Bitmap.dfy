/** The one-bit-per-block map, byte by byte, most significant bit first. */
module Bitmaps {

  /** 128 >> k */
  function Mask(k: nat): bv8
    requires k < 8
  {
    match k
    case 0 => 128
    case 1 => 64
    case 2 => 32
    case 3 => 16
    case 4 => 8
    case 5 => 4
    case 6 => 2
    case _ => 1
  }

  /** Bit k of a byte, and the byte with that bit set or cleared. */
  predicate Has(x: bv8, k: nat)
    requires k < 8
  {
    x & Mask(k) != 0
  }

  function WithBit(x: bv8, k: nat): bv8
    requires k < 8
  {
    x | Mask(k)
  }

  function WithoutBit(x: bv8, k: nat): bv8
    requires k < 8
  {
    x & !Mask(k)
  }

  predicate BitAt(bytes: seq<bv8>, n: nat)
    requires n < 8 * |bytes|
  {
    Has(bytes[n / 8], n % 8)
  }

  lemma SetMask(x: bv8, k: nat, j: nat)
    requires k < 8 && j < 8
    ensures Has(WithBit(x, k), j) <==> j == k || Has(x, j)
  {
  }

  lemma ClearMask(x: bv8, k: nat, j: nat)
    requires k < 8 && j < 8
    ensures Has(WithoutBit(x, k), j) <==> j != k && Has(x, j)
  {
  }

  lemma FullByte(x: bv8)
    ensures x == 0xFF <==> forall k :: 0 <= k < 8 ==> Has(x, k)
    ensures x == 0 <==> forall k :: 0 <= k < 8 ==> !Has(x, k)
  {
    if forall k :: 0 <= k < 8 ==> Has(x, k) {
      assert Has(x, 0) && Has(x, 1) && Has(x, 2) && Has(x, 3);
      assert Has(x, 4) && Has(x, 5) && Has(x, 6) && Has(x, 7);
    }
    if forall k :: 0 <= k < 8 ==> !Has(x, k) {
      assert !Has(x, 0) && !Has(x, 1) && !Has(x, 2) && !Has(x, 3);
      assert !Has(x, 4) && !Has(x, 5) && !Has(x, 6) && !Has(x, 7);
    }
  }

  // ----- One bit -----

  method BitTest(m: array<bv8>, n: nat) returns (r: bool)
    requires n < 8 * m.Length
    ensures r == BitAt(m[..], n)
  {
    r := Has(m[n / 8], n % 8);
  }

  /** b is a with bit n set to v. */
  ghost predicate OneBit(a: seq<bv8>, b: seq<bv8>, n: nat, v: bool) {
    && |a| == |b|
    && forall i :: 0 <= i < 8 * |a| ==> BitAt(b, i) == if i == n then v else BitAt(a, i)
  }

  lemma SetOneBit(a: seq<bv8>, n: nat)
    requires n < 8 * |a|
    ensures OneBit(a, a[n / 8 := WithBit(a[n / 8], n % 8)], n, true)
  {
    hide Has, WithBit, WithoutBit;
    forall i | 0 <= i < 8 * |a|
      ensures BitAt(a[n / 8 := WithBit(a[n / 8], n % 8)], i) == if i == n then true else BitAt(a, i)
    {
      SetMask(a[n / 8], n % 8, i % 8);
    }
  }

  lemma ClearOneBit(a: seq<bv8>, n: nat)
    requires n < 8 * |a|
    ensures OneBit(a, a[n / 8 := WithoutBit(a[n / 8], n % 8)], n, false)
  {
    hide Has, WithBit, WithoutBit;
    forall i | 0 <= i < 8 * |a|
      ensures BitAt(a[n / 8 := WithoutBit(a[n / 8], n % 8)], i) == if i == n then false else BitAt(a, i)
    {
      ClearMask(a[n / 8], n % 8, i % 8);
    }
  }

  method BitSet(m: array<bv8>, n: nat)
    requires n < 8 * m.Length
    modifies m
    ensures OneBit(old(m[..]), m[..], n, true)
  {
    SetOneBit(m[..], n);
    m[n / 8] := WithBit(m[n / 8], n % 8);
    hide BitAt, WithBit, WithoutBit;
    assert m[..] == old(m[..])[n / 8 := WithBit(old(m[n / 8]), n % 8)];
  }

  method BitClear(m: array<bv8>, n: nat)
    requires n < 8 * m.Length
    modifies m
    ensures OneBit(old(m[..]), m[..], n, false)
  {
    ClearOneBit(m[..], n);
    m[n / 8] := WithoutBit(m[n / 8], n % 8);
    hide BitAt, WithBit, WithoutBit;
    assert m[..] == old(m[..])[n / 8 := WithoutBit(old(m[n / 8]), n % 8)];
  }

  // ----- Ranges -----

  /** The first and last byte boundary inside firstBit .. pastBit. */
  function FirstFull(firstBit: nat): (r: nat)
    ensures r % 8 == 0 && firstBit <= r < firstBit + 8
  {
    (firstBit + 7) / 8 * 8
  }

  function PastFull(pastBit: nat): (r: nat)
    ensures r % 8 == 0 && r <= pastBit < r + 8
  {
    pastBit / 8 * 8
  }

  /** b is a with the bits lo .. hi cleared. */
  ghost predicate Cleared(a: seq<bv8>, b: seq<bv8>, lo: nat, hi: nat) {
    && |a| == |b|
    && forall i :: 0 <= i < 8 * |a| ==> BitAt(b, i) == (BitAt(a, i) && !(lo <= i < hi))
  }

  method ClearBits(m: array<bv8>, lo: nat, hi: nat)
    requires hi <= 8 * m.Length
    modifies m
    ensures Cleared(old(m[..]), m[..], lo, hi)
  {
    var i := lo;
    while i < hi
      invariant lo <= i && (i <= hi || i == lo)
      invariant Cleared(old(m[..]), m[..], lo, i)
    {
      BitClear(m, i);
      i := i + 1;
    }
  }

  method ZeroBytes(m: array<bv8>, start: nat, bytes: nat)
    requires start + bytes <= m.Length
    modifies m
    ensures Cleared(old(m[..]), m[..], 8 * start, 8 * (start + bytes))
  {
    for i := 0 to bytes
      invariant Cleared(old(m[..]), m[..], 8 * start, 8 * (start + i))
    {
      ghost var before := m[..];
      m[start + i] := 0;
      FullByte(0);
      forall n | 0 <= n < 8 * m.Length
        ensures BitAt(m[..], n) == (BitAt(before, n) && !(8 * (start + i) <= n < 8 * (start + i + 1)))
      {
        assert n / 8 == start + i ==> !Has(m[n / 8], n % 8);
      }
    }
  }

  /** Clears exactly the bits firstBit .. pastBit, whole bytes at a time where possible. */
  method ClearAll(m: array<bv8>, firstBit: nat, pastBit: nat)
    requires firstBit < pastBit ==> pastBit <= 8 * m.Length
    modifies m
    ensures Cleared(old(m[..]), m[..], firstBit, pastBit)
  {
    hide BitAt, FirstFull, PastFull;
    var firstFull, pastFull, past := FirstFull(firstBit), PastFull(pastBit), pastBit;
    if past > firstFull { past := firstFull; }
    if firstBit < past { ClearBits(m, firstBit, past); }
    if pastFull > firstFull {
      ZeroBytes(m, firstFull / 8, (pastFull - firstFull) / 8);
    }
    if pastFull < past { pastFull := past; }
    if pastFull < pastBit { ClearBits(m, pastFull, pastBit); }
  }

  // ----- Tests of whole ranges -----

  /** `repe scasb` counts down before it compares, and only the count is looked
      at afterwards: the last byte scanned is compared but never reported. */
  method ScanWhile(m: array<bv8>, start: nat, bytes: nat, value: bv8) returns (left: nat)
    requires start + bytes <= m.Length
    ensures left == 0 <==> forall i :: start <= i < start + bytes - 1 ==> m[i] == value
  {
    left := bytes;
    var p, equal := start, true;
    while left != 0 && equal
      invariant start <= p && p + left == start + bytes
      invariant forall i :: start <= i < p - 1 ==> m[i] == value
      invariant p == start ==> equal
      invariant p > start ==> equal == (m[p - 1] == value)
      decreases left
    {
      left := left - 1;
      equal := m[p] == value;
      p := p + 1;
    }
  }

  method MemAll(m: array<bv8>, start: nat, bytes: nat) returns (r: bool)
    requires start + bytes <= m.Length
    ensures r <==> forall i :: start <= i < start + bytes - 1 ==> m[i] == 0xFF
  {
    if bytes == 0 { return true; }
    var left := ScanWhile(m, start, bytes, 0xFF);
    r := left == 0;
  }

  method MemAny(m: array<bv8>, start: nat, bytes: nat) returns (r: bool)
    requires start + bytes <= m.Length
    ensures r <==> exists i :: start <= i < start + bytes - 1 && m[i] != 0
  {
    if bytes == 0 { return false; }
    var left := ScanWhile(m, start, bytes, 0);
    r := left != 0;
  }

  /** What the range tests really look at: every bit of the range except those
      of its last whole byte. */
  ghost predicate Looked(firstBit: nat, pastBit: nat, n: nat) {
    && firstBit <= n < pastBit
    && !(FirstFull(firstBit) < PastFull(pastBit) && PastFull(pastBit) - 8 <= n < PastFull(pastBit))
  }

  ghost predicate AllLooked(m: seq<bv8>, firstBit: nat, pastBit: nat, v: bool) {
    && (firstBit < pastBit ==> pastBit <= 8 * |m|)
    && forall n :: Looked(firstBit, pastBit, n) ==> BitAt(m, n) == v
  }

  method BitsAre(m: array<bv8>, lo: nat, hi: nat, v: bool) returns (r: bool)
    requires hi <= 8 * m.Length
    ensures r <==> forall n :: lo <= n < hi ==> BitAt(m[..], n) == v
  {
    var i := lo;
    while i < hi
      invariant lo <= i && forall n :: lo <= n < i && n < hi ==> BitAt(m[..], n) == v
    {
      var t := BitTest(m, i);
      if t != v { return false; }
      i := i + 1;
    }
    r := true;
  }

  /** All bytes start .. past are full (v) or zero (!v) exactly if all their bits are v. */
  lemma BytesAreBits(m: seq<bv8>, start: nat, past: nat, v: bool)
    requires past <= |m|
    ensures (forall i :: start <= i < past ==> m[i] == if v then 0xFF else 0)
       <==> forall n :: 8 * start <= n < 8 * past ==> BitAt(m, n) == v
  {
    hide Has;
    if forall i :: start <= i < past ==> m[i] == if v then 0xFF else 0 {
      forall n | 8 * start <= n < 8 * past ensures BitAt(m, n) == v {
        FullByte(m[n / 8]);
      }
    }
    if forall n :: 8 * start <= n < 8 * past ==> BitAt(m, n) == v {
      forall i | start <= i < past ensures m[i] == if v then 0xFF else 0 {
        FullByte(m[i]);
        forall k | 0 <= k < 8 ensures Has(m[i], k) == v {
          assert BitAt(m, 8 * i + k) == v;
        }
      }
    }
  }

  /** Reports whether all bits of the range are 1, except that the last whole
      byte of the range is not looked at. */
  method TestAll(m: array<bv8>, firstBit: nat, pastBit: nat) returns (r: bool)
    requires firstBit < pastBit ==> pastBit <= 8 * m.Length
    ensures r <==> AllLooked(m[..], firstBit, pastBit, true)
  {
    hide BitAt, FirstFull, PastFull;
    var firstFull, pastFull, past := FirstFull(firstBit), PastFull(pastBit), pastBit;
    if past > firstFull { past := firstFull; }
    if firstBit < past {
      r := BitsAre(m, firstBit, past, true);
      if !r {
        assert exists n :: firstBit <= n < past && !BitAt(m[..], n);
        assert exists n :: Looked(firstBit, pastBit, n) && !BitAt(m[..], n);
        return;
      }
    }
    if pastFull > firstFull {
      r := MemAll(m, firstFull / 8, (pastFull - firstFull) / 8);
      BytesAreBits(m[..], firstFull / 8, pastFull / 8 - 1, true);
      assert r <==> forall n :: firstFull <= n < pastFull - 8 ==> BitAt(m[..], n);
      if !r {
        assert exists n :: Looked(firstBit, pastBit, n) && !BitAt(m[..], n);
        return;
      }
    }
    if pastFull < past { pastFull := past; }
    r := true;
    if pastFull < pastBit {
      r := BitsAre(m, pastFull, pastBit, true);
      if !r {
        assert exists n :: Looked(firstBit, pastBit, n) && !BitAt(m[..], n);
      }
    }
  }

  /** Reports whether any bit of the range is 1, with the same blind spot. */
  method TestAny(m: array<bv8>, firstBit: nat, pastBit: nat) returns (r: bool)
    requires firstBit < pastBit ==> pastBit <= 8 * m.Length
    ensures r <==> !AllLooked(m[..], firstBit, pastBit, false)
  {
    hide BitAt, FirstFull, PastFull;
    var firstFull, pastFull, past := FirstFull(firstBit), PastFull(pastBit), pastBit;
    if past > firstFull { past := firstFull; }
    var none;
    if firstBit < past {
      none := BitsAre(m, firstBit, past, false);
      if !none {
        assert exists n :: Looked(firstBit, pastBit, n) && BitAt(m[..], n);
        return true;
      }
    }
    if pastFull > firstFull {
      r := MemAny(m, firstFull / 8, (pastFull - firstFull) / 8);
      BytesAreBits(m[..], firstFull / 8, pastFull / 8 - 1, false);
      assert !r <==> forall n :: firstFull <= n < pastFull - 8 ==> !BitAt(m[..], n);
      if r {
        assert exists n :: Looked(firstBit, pastBit, n) && BitAt(m[..], n);
        return true;
      }
    }
    if pastFull < past { pastFull := past; }
    r := false;
    if pastFull < pastBit {
      none := BitsAre(m, pastFull, pastBit, false);
      if !none {
        assert exists n :: Looked(firstBit, pastBit, n) && BitAt(m[..], n);
      }
      r := !none;
    }
  }

  // ----- When the tests are exact -----

  /** The verdict of TestAll is the bitwise one on every map exactly when the
      range holds no whole byte; likewise for TestAny. */
  lemma TestsExactIff(firstBit: nat, pastBit: nat, len: nat, v: bool)
    requires firstBit < pastBit <= 8 * len
    ensures (forall m: seq<bv8> :: |m| == len ==>
               (AllLooked(m, firstBit, pastBit, v) <==> forall n :: firstBit <= n < pastBit ==> BitAt(m, n) == v))
       <==> PastFull(pastBit) <= FirstFull(firstBit)
  {
    if PastFull(pastBit) <= FirstFull(firstBit) {
      forall m: seq<bv8> | |m| == len
        ensures AllLooked(m, firstBit, pastBit, v) <==> forall n :: firstBit <= n < pastBit ==> BitAt(m, n) == v
      {
        hide BitAt, FirstFull, PastFull;
        assert forall n :: firstBit <= n < pastBit ==> Looked(firstBit, pastBit, n);
      }
    } else {
      var m := BlindSpot(firstBit, pastBit, len, v);
    }
  }

  /** A map the tests misjudge: the last whole byte of the range, and only that, is wrong. */
  lemma BlindSpot(firstBit: nat, pastBit: nat, len: nat, v: bool) returns (m: seq<bv8>)
    requires firstBit < pastBit <= 8 * len && FirstFull(firstBit) < PastFull(pastBit)
    ensures |m| == len && AllLooked(m, firstBit, pastBit, v)
    ensures firstBit <= PastFull(pastBit) - 8 < pastBit && BitAt(m, PastFull(pastBit) - 8) != v
  {
    var last := PastFull(pastBit) / 8 - 1;
    m := seq(len, i => if (i == last) == v then 0 else 0xFF);
    hide Has;
    FullByte(0);
    FullByte(0xFF);
  }

  /** The test is passed by every map, whatever its bits, exactly if the range is
      empty or one whole byte. */
  lemma NeverRefusedIff(firstBit: nat, pastBit: nat, len: nat, v: bool)
    requires firstBit < pastBit ==> pastBit <= 8 * len
    ensures (forall m: seq<bv8> :: |m| == len ==> AllLooked(m, firstBit, pastBit, v))
       <==> firstBit >= pastBit || (firstBit % 8 == 0 && pastBit == firstBit + 8)
  {
    hide BitAt, Has;
    if firstBit < pastBit && !(firstBit % 8 == 0 && pastBit == firstBit + 8) {
      var m: seq<bv8> := seq(len, _ => if v then 0 else 0xFF);
      var n := if firstBit < FirstFull(firstBit) || PastFull(pastBit) <= FirstFull(firstBit) then firstBit
               else if PastFull(pastBit) < pastBit then PastFull(pastBit) else firstBit;
      assert Looked(firstBit, pastBit, n);
      UniformBit(m, if v then 0 else 0xFF, n);
    }
  }

  lemma UniformBit(m: seq<bv8>, x: bv8, n: nat)
    requires n < 8 * |m| && m[n / 8] == x && (x == 0 || x == 0xFF)
    ensures BitAt(m, n) == (x == 0xFF)
  {
    FullByte(x);
  }

  /** In a clear range a flipped bit is noticed exactly if it is looked at. */
  lemma FlippedRangeIff(a: seq<bv8>, b: seq<bv8>, n: nat, lo: nat, hi: nat)
    requires n < 8 * |a| && OneBit(a, b, n, !BitAt(a, n)) && AllLooked(a, lo, hi, false)
    ensures AllLooked(b, lo, hi, false) <==> !Looked(lo, hi, n)
  {
    hide BitAt;
  }

  // ----- A map is its bits -----

  lemma SameByte(x: bv8, y: bv8)
    requires forall k :: 0 <= k < 8 ==> Has(x, k) == Has(y, k)
    ensures x == y
  {
    assert Has(x, 0) == Has(y, 0) && Has(x, 1) == Has(y, 1) && Has(x, 2) == Has(y, 2) && Has(x, 3) == Has(y, 3);
    assert Has(x, 4) == Has(y, 4) && Has(x, 5) == Has(y, 5) && Has(x, 6) == Has(y, 6) && Has(x, 7) == Has(y, 7);
  }

  lemma SameBits(a: seq<bv8>, b: seq<bv8>)
    requires |a| == |b| && forall n :: 0 <= n < 8 * |a| ==> BitAt(a, n) == BitAt(b, n)
    ensures a == b
  {
    hide Has;
    forall i | 0 <= i < |a| ensures a[i] == b[i] {
      forall k | 0 <= k < 8 ensures Has(a[i], k) == Has(b[i], k) {
        assert BitAt(a, 8 * i + k) == BitAt(b, 8 * i + k);
      }
      SameByte(a[i], b[i]);
    }
  }
}
