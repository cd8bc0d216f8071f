/** How an abstract heap is laid out in the pool, the bit map and the list heads.

    The pool is an array of 32-bit words, 1024 to a block of 4096 bytes.  The first block of
    a free chunk starts with a magic word and the offsets of its neighbours on
    the free list; the last word of its last block holds the size class. */
module PoolMemory {
  import opened Common
  import opened Dyadic
  import opened Heaps
  import opened Bitmaps

  type Word = x: int | 0 <= x < 0x1_0000_0000

  const OURNULL: Word := 0xFFFF_FFFF
  const MAGIC: Word := 0xA713_0423
  const OFF_MAGIC: nat := 0
  const OFF_PREV: nat := 1
  const OFF_NEXT: nat := 2
  const OFF_BITS: nat := 1023             // the word just before the end of the last block
  const LEN_OFFSET: nat := 1234

  ghost predicate HasWord(words: seq<Word>, x: int, k: int) {
    0 <= x && 0 <= k < 1024 && 1024 * x + k < |words|
  }

  /** Word k of block x. */
  function At(words: seq<Word>, x: nat, k: nat): Word
    requires HasWord(words, x, k)
  {
    words[1024 * x + k]
  }

  /** b is a with word k of block x replaced by v. */
  ghost predicate OneWord(a: seq<Word>, b: seq<Word>, x: nat, k: nat, v: Word) {
    && |a| == |b| && HasWord(a, x, k)
    && forall y: nat, j: nat :: HasWord(a, y, j) ==> At(b, y, j) == if y == x && j == k then v else At(a, y, j)
  }

  lemma OneWordUpdate(a: seq<Word>, x: nat, k: nat, v: Word)
    requires HasWord(a, x, k)
    ensures OneWord(a, a[1024 * x + k := v], x, k, v)
  {
  }

  // ----- Layout -----

  function Prev(s: seq<nat>, i: nat): (r: nat)
    requires i < |s|
  {
    if i == 0 then OURNULL else s[i - 1]
  }

  function Next(s: seq<nat>, i: nat): (r: nat)
    requires i < |s|
  {
    if i + 1 < |s| then s[i + 1] else OURNULL
  }

  function Head(s: seq<nat>): (r: nat) {
    if s == [] then OURNULL else s[0]
  }

  /** Entry i of list s of class b has its header and trailer in place. */
  ghost predicate NodeOk(words: seq<Word>, s: seq<nat>, b: nat, i: nat)
    requires i < |s|
  {
    && HasWord(words, s[i], OFF_BITS) && HasWord(words, s[i] + Pow2(b) - 1, OFF_BITS)
    && At(words, s[i], OFF_MAGIC) == MAGIC
    && At(words, s[i], OFF_PREV) == Prev(s, i)
    && At(words, s[i], OFF_NEXT) == Next(s, i)
    && At(words, s[i] + Pow2(b) - 1, OFF_BITS) == b + LEN_OFFSET
  }

  ghost predicate ListInMemory(words: seq<Word>, s: seq<nat>, b: nat) {
    forall i :: 0 <= i < |s| ==> NodeOk(words, s, b, i)
  }

  ghost predicate ListsInMemory(words: seq<Word>, lists: seq<seq<nat>>) {
    forall b :: 0 <= b < |lists| ==> ListInMemory(words, lists[b], b)
  }

  ghost predicate HeadsOk(heads: seq<Word>, lists: seq<seq<nat>>) {
    |heads| == |lists| && forall b :: 0 <= b < |lists| ==> heads[b] == Head(lists[b])
  }

  /** The map marks reserved blocks and the last block of each live chunk; the bits
      past the end of the pool stay set. */
  predicate Marked(t: Owner, x: int) {
    t.Reserved? || (t.Chunk? && t.live && x == t.off + Pow2(t.bits) - 1)
  }

  ghost predicate MapOk(bytes: seq<bv8>, owner: seq<Owner>) {
    && |owner| <= 8 * |bytes|
    && (forall x :: 0 <= x < |owner| ==> BitAt(bytes, x) == Marked(owner[x], x))
    && (forall x :: |owner| <= x < 8 * |bytes| ==> BitAt(bytes, x))
  }

  ghost predicate Rep(words: seq<Word>, bytes: seq<bv8>, heads: seq<Word>, h: Heap) {
    && |words| == 1024 * |h.owner| && |words| < 0x4000_0000
    && MapOk(bytes, h.owner)
    && HeadsOk(heads, h.lists)
    && ListsInMemory(words, h.lists)
  }

  // ----- Putting a chunk on a list -----

  /** b is a after chunk o of class bits has been linked in before `next`. */
  ghost predicate Linked(a: seq<Word>, b: seq<Word>, o: nat, bits: nat, next: nat) {
    && |a| == |b| && HasWord(a, o, OFF_BITS) && HasWord(a, o + Pow2(bits) - 1, OFF_BITS)
    && At(b, o, OFF_MAGIC) == MAGIC
    && At(b, o, OFF_PREV) == OURNULL
    && At(b, o, OFF_NEXT) == next
    && At(b, o + Pow2(bits) - 1, OFF_BITS) == bits + LEN_OFFSET
    && (next != OURNULL ==> HasWord(b, next, OFF_PREV) && At(b, next, OFF_PREV) == o)
    && forall x: nat, k: nat ::
         && HasWord(a, x, k) && !(x == o && k <= OFF_NEXT) && !(x == o + Pow2(bits) - 1 && k == OFF_BITS)
         && !(x == next && k == OFF_PREV)
         ==> At(b, x, k) == At(a, x, k)
  }

  /** The first and last block of a listed chunk belong to it. */
  lemma NodeBlocks(h: Heap, c: nat, i: nat)
    requires Inv(h) && c < |h.lists| && i < |h.lists[c]|
    ensures var p := h.lists[c][i];
            && AllOwned(h, p, p + Pow2(c), Chunk(p, c, false))
            && h.owner[p] == h.owner[p + Pow2(c) - 1] == Chunk(p, c, false)
  {
    assert ListOk(h, c);
    assert IsFree(h, h.lists[c][i], c);
    ChunkFacts(h, h.lists[c][i]);
  }

  /** No entry occurs twice, on one list or on two. */
  lemma NodesDiffer(h: Heap, b: nat, i: nat, c: nat, j: nat)
    requires Inv(h) && b < |h.lists| && c < |h.lists| && i < |h.lists[b]| && j < |h.lists[c]|
    requires b != c || i != j
    ensures h.lists[b][i] != h.lists[c][j]
  {
    assert ListOk(h, b) && ListOk(h, c);
    assert IsFree(h, h.lists[b][i], b) && IsFree(h, h.lists[c][j], c);
  }

  lemma LinkNode(a: seq<Word>, b: seq<Word>, h: Heap, o: nat, bits: nat, c: nat, i: nat)
    requires Inv(h) && bits < |h.lists| && |a| == 1024 * |h.owner| < 0x4000_0000
    requires AllOwned(h, o, o + Pow2(bits), Limbo)
    requires ListsInMemory(a, h.lists) && Linked(a, b, o, bits, Head(h.lists[bits]))
    requires c < |h.lists| && i < |h.lists[c]|
    ensures if c == bits then NodeOk(b, [o] + h.lists[c], c, i + 1) else NodeOk(b, h.lists[c], c, i)
  {
    var s := h.lists[c];
    assert ListInMemory(a, s, c);
    assert NodeOk(a, s, c, i);
    NodeBlocks(h, c, i);
    if c != bits || i > 0 {
      if h.lists[bits] != [] { NodesDiffer(h, bits, 0, c, i); }
    }
  }

  lemma LinkRep(a: seq<Word>, b: seq<Word>, bytes: seq<bv8>, heads: seq<Word>, h: Heap, o: nat, bits: nat)
    requires Inv(h) && bits < |h.lists| && Rep(a, bytes, heads, h)
    requires AllOwned(h, o, o + Pow2(bits), Limbo)
    requires Linked(a, b, o, bits, Head(h.lists[bits]))
    requires o < OURNULL
    ensures Rep(b, bytes, heads[bits := o], Push(h, o, bits))
  {
    var r := Push(h, o, bits);
    forall c | 0 <= c < |r.lists| ensures ListInMemory(b, r.lists[c], c) {
      forall i | 0 <= i < |r.lists[c]| ensures NodeOk(b, r.lists[c], c, i) {
        if c != bits {
          LinkNode(a, b, h, o, bits, c, i);
        } else if i > 0 {
          LinkNode(a, b, h, o, bits, c, i - 1);
        }
      }
    }
  }

  // ----- Taking a chunk off a list -----

  /** b is a after entry i of list s has been linked out; its own blocks may be anything. */
  ghost predicate Unlinked(a: seq<Word>, b: seq<Word>, s: seq<nat>, i: nat, bits: nat)
    requires i < |s|
  {
    && |a| == |b|
    && forall x: nat, k: nat :: HasWord(a, x, k) && !Within(x, s[i], bits) ==>
         At(b, x, k) == if x == Next(s, i) && k == OFF_PREV then Prev(s, i)
                        else if x == Prev(s, i) && k == OFF_NEXT then Next(s, i)
                        else At(a, x, k)
  }

  lemma WithoutEntry(s: seq<nat>, i: nat)
    requires Distinct(s) && i < |s|
    ensures IndexOf(s, s[i]) == i
    ensures Without(s, s[i]) == s[..i] + s[i + 1..]
  {
  }

  lemma UnlinkNode(a: seq<Word>, b: seq<Word>, h: Heap, bits: nat, i: nat, c: nat, j: nat)
    requires Inv(h) && bits < |h.lists| && |a| == 1024 * |h.owner| < 0x4000_0000
    requires ListsInMemory(a, h.lists) && i < |h.lists[bits]| && Unlinked(a, b, h.lists[bits], i, bits)
    requires c < |h.lists| && j < |h.lists[c]| && (c != bits || i != j)
    ensures var s := h.lists[c]; var p := s[j];
            && HasWord(b, p, OFF_BITS) && HasWord(b, p + Pow2(c) - 1, OFF_BITS)
            && At(b, p, OFF_MAGIC) == MAGIC
            && At(b, p, OFF_PREV) == (if c == bits && j == i + 1 then Prev(s, i) else Prev(s, j))
            && At(b, p, OFF_NEXT) == (if c == bits && j == i - 1 then Next(s, i) else Next(s, j))
            && At(b, p + Pow2(c) - 1, OFF_BITS) == c + LEN_OFFSET
  {
    var s := h.lists[c];
    assert ListInMemory(a, s, c);
    assert NodeOk(a, s, c, j);
    NodeBlocks(h, c, j);
    NodeBlocks(h, bits, i);
    NodesDiffer(h, bits, i, c, j);
    if i > 0 && (c != bits || j != i - 1) { NodesDiffer(h, bits, i - 1, c, j); }
    if i + 1 < |h.lists[bits]| && (c != bits || j != i + 1) { NodesDiffer(h, bits, i + 1, c, j); }
  }

  lemma UnlinkEntry(a: seq<Word>, b: seq<Word>, h: Heap, bits: nat, i: nat, j: nat)
    requires Inv(h) && bits < |h.lists| && |a| == 1024 * |h.owner| < 0x4000_0000
    requires ListsInMemory(a, h.lists) && i < |h.lists[bits]| && Unlinked(a, b, h.lists[bits], i, bits)
    requires j < |h.lists[bits]| - 1
    ensures NodeOk(b, h.lists[bits][..i] + h.lists[bits][i + 1..], bits, j)
  {
    UnlinkNode(a, b, h, bits, i, bits, if j >= i then j + 1 else j);
  }

  lemma UnlinkLists(a: seq<Word>, b: seq<Word>, h: Heap, bits: nat, i: nat, s: seq<nat>)
    requires Inv(h) && bits < |h.lists| && |a| == 1024 * |h.owner| < 0x4000_0000
    requires ListsInMemory(a, h.lists) && i < |h.lists[bits]| && Unlinked(a, b, h.lists[bits], i, bits)
    requires s == h.lists[bits][..i] + h.lists[bits][i + 1..]
    ensures ListsInMemory(b, h.lists[bits := s])
  {
    var lists := h.lists[bits := s];
    forall c | 0 <= c < |lists| ensures ListInMemory(b, lists[c], c) {
      forall j | 0 <= j < |lists[c]| ensures NodeOk(b, lists[c], c, j) {
        if c == bits { UnlinkEntry(a, b, h, bits, i, j); } else { UnlinkNode(a, b, h, bits, i, c, j); }
      }
    }
  }

  lemma UnlinkRep(a: seq<Word>, b: seq<Word>, bytes: seq<bv8>, heads: seq<Word>, heads': seq<Word>, h: Heap,
                  bits: nat, i: nat)
    requires Inv(h) && bits < |h.lists| && i < |h.lists[bits]| && Rep(a, bytes, heads, h)
    requires Unlinked(a, b, h.lists[bits], i, bits)
    requires |heads'| == |heads| && forall c :: 0 <= c < |heads| ==>
               heads'[c] == if c == bits && i == 0 then Next(h.lists[bits], 0) else heads[c]
    ensures h.lists[bits][i] in h.lists[bits]
    ensures Rep(b, bytes, heads', Take(h, h.lists[bits][i], bits))
  {
    assert |a| == |b|;
    hide Inv, Pow2, ListsInMemory, Unlinked, BitAt;
    var s := h.lists[bits];
    NodeBlocks(h, bits, i);
    assert Distinct(s) by { ListDistinct(h, bits); }
    WithoutEntry(s, i);
    UnlinkLists(a, b, h, bits, i, Without(s, s[i]));
  }

  lemma ListDistinct(h: Heap, b: nat)
    requires Inv(h) && b < |h.lists|
    ensures Distinct(h.lists[b])
  {
    assert ListOk(h, b);
  }

  // ----- The map -----

  lemma MarkedLive(o: nat, bits: nat, x: nat)
    ensures Marked(Chunk(o, bits, true), x) <==> x == o + Pow2(bits) - 1
  {
  }

  lemma MarkLive(a: seq<bv8>, b: seq<bv8>, owner: seq<Owner>, o: nat, bits: nat)
    requires MapOk(a, owner) && o + Pow2(bits) <= |owner|
    requires forall x :: o <= x < o + Pow2(bits) ==> !Marked(owner[x], x)
    requires OneBit(a, b, o + Pow2(bits) - 1, true)
    ensures MapOk(b, Paint(owner, o, o + Pow2(bits), Chunk(o, bits, true)))
  {
    hide BitAt, Pow2, Paint, Marked;
    var t := Chunk(o, bits, true);
    var r := Paint(owner, o, o + Pow2(bits), t);
    forall x | 0 <= x < |owner| ensures BitAt(b, x) == Marked(r[x], x) {
      assert r[x] == if o <= x < o + Pow2(bits) then t else owner[x];
      MarkedLive(o, bits, x);
    }
  }

  lemma UnmarkLive(a: seq<bv8>, b: seq<bv8>, owner: seq<Owner>, o: nat, bits: nat)
    requires MapOk(a, owner) && Whole(owner, Chunk(o, bits, true))
    requires OneBit(a, b, o + Pow2(bits) - 1, false)
    ensures MapOk(b, Paint(owner, o, o + Pow2(bits), Limbo))
  {
    hide BitAt, Pow2;
  }

  /** The list heads and every bit of the map are a function of the abstract heap. */
  lemma LayoutUnique(words: seq<Word>, words': seq<Word>, bytes: seq<bv8>, bytes': seq<bv8>,
                     heads: seq<Word>, heads': seq<Word>, h: Heap)
    requires Rep(words, bytes, heads, h) && Rep(words', bytes', heads', h) && |bytes| == |bytes'|
    ensures bytes == bytes' && heads == heads'
  {
    hide BitAt, ListsInMemory, Marked;
    SameBits(bytes, bytes');
  }

  // ----- Finding the size of a chunk from the map -----

  /** The smallest class j at which the map marks the end of an aligned chunk
      that starts at off, looking from class j upwards. */
  function Probe(h: Heap, off: nat, j: nat): (r: int)
    ensures r == -1 || j <= r < |h.lists|
    ensures r >= 0 ==>
              && Aligned(off, r) && off + Pow2(r) <= |h.owner|
              && Marked(h.owner[off + Pow2(r) - 1], off + Pow2(r) - 1)
    decreases |h.lists| - j
  {
    if off + Pow2(j) > |h.owner| || j >= |h.lists| || !Aligned(off, j) then -1
    else if Marked(h.owner[off + Pow2(j) - 1], off + Pow2(j) - 1) then j
    else Probe(h, off, j + 1)
  }

  /** A live pointer is recognised with exactly its own size. */
  lemma {:induction false} ProbeLive(h: Heap, off: nat, bits: nat, j: nat)
    requires Inv(h) && IsLive(h, off, bits) && j <= bits
    ensures Probe(h, off, j) == bits
    decreases bits - j
  {
    ChunkFacts(h, off);
    AlignedWeaken(off, bits, j);
    if j < bits {
      Pow2Strict(j, bits);
      assert h.owner[off + Pow2(j) - 1] == h.owner[off];
      ProbeLive(h, off, bits, j + 1);
    } else {
      assert h.owner[off + Pow2(bits) - 1] == h.owner[off];
    }
  }

  /** Inside a live chunk an address is recognised exactly if an aligned chunk
      from there to the end of the live one exists: the map alone does not tell a
      chunk from its last half, quarter and so on. */
  lemma {:induction false} ProbeInside(h: Heap, x: nat, j: nat)
    requires Inv(h) && x < |h.owner| && h.owner[x].Chunk? && h.owner[x].live
    requires !Aligned(x, j) || x + Pow2(j) <= h.owner[x].off + Pow2(h.owner[x].bits)
    ensures var end := h.owner[x].off + Pow2(h.owner[x].bits);
            var r := Probe(h, x, j);
            if r >= 0 then x + Pow2(r) == end else forall k :: k >= j ==> x + Pow2(k) != end
    decreases |h.lists| - j
  {
    hide Inv;
    var t := h.owner[x];
    var end := t.off + Pow2(t.bits);
    ChunkFacts(h, x);
    if !Aligned(x, j) {
      forall k | k >= j ensures x + Pow2(k) != end {
        if x + Pow2(k) == end { TailAligned(x, k, t.off, t.bits); AlignedWeaken(x, k, j); }
      }
    } else if x + Pow2(j) < end {
      if j >= t.bits { Pow2Monotone(t.bits, j); }
      assert h.owner[x + Pow2(j) - 1] == t;
      if Aligned(x, j + 1) { Nested(t.off, t.bits, x, j + 1); }
      ProbeInside(h, x, j + 1);
    } else {
      TailAligned(x, j, t.off, t.bits);
      assert h.owner[x + Pow2(j) - 1] == t;
    }
  }

  /** Class k is one at which the search from x would stop. */
  ghost predicate Stops(h: Heap, x: nat, k: nat) {
    && k < |h.lists| && Aligned(x, k) && x + Pow2(k) <= |h.owner|
    && Marked(h.owner[x + Pow2(k) - 1], x + Pow2(k) - 1)
  }

  /** The search finds the least such class. */
  lemma {:induction false} ProbeLeast(h: Heap, x: nat, j: nat)
    ensures var r := Probe(h, x, j);
            if r >= 0 then Stops(h, x, r) && forall k: nat :: j <= k < r ==> !Stops(h, x, k)
            else forall k: nat :: j <= k ==> !Stops(h, x, k)
    decreases |h.lists| - j
  {
    if x + Pow2(j) > |h.owner| || j >= |h.lists| || !Aligned(x, j) {
      forall k: nat | j <= k ensures !Stops(h, x, k) {
        Pow2Monotone(j, k);
        if Aligned(x, k) { AlignedWeaken(x, k, j); }
      }
    } else if !Stops(h, x, j) {
      ProbeLeast(h, x, j + 1);
    }
  }

  /** The search from a block of a free chunk stops only past the end of that chunk. */
  lemma FreeStopsBeyond(h: Heap, x: nat, k: nat)
    requires Inv(h) && x < |h.owner| && h.owner[x].Chunk? && !h.owner[x].live && Stops(h, x, k)
    ensures x + Pow2(k) > h.owner[x].off + Pow2(h.owner[x].bits)
  {
    hide Inv;
    ChunkFacts(h, x);
    assert forall y :: h.owner[x].off <= y < h.owner[x].off + Pow2(h.owner[x].bits) ==> !Marked(h.owner[y], y);
  }

  /** What the search answers for every block of a settled heap. */
  lemma ProbeVerdict(h: Heap, x: nat)
    requires Settled(h) && x < |h.owner|
    ensures var r := Probe(h, x, 0);
            match h.owner[x]
            case Reserved => r == 0
            case Limbo => false
            case Chunk(off, bits, live) =>
              if live then
                if r >= 0 then x + Pow2(r) == off + Pow2(bits) else forall k: nat :: x + Pow2(k) != off + Pow2(bits)
              else if r >= 0 then
                && Stops(h, x, r) && x + Pow2(r) > off + Pow2(bits)
                && forall k: nat :: k < r ==> !Stops(h, x, k)
              else forall k: nat :: !Stops(h, x, k)
  {
    hide Inv;
    assert Inv(h);
    match h.owner[x]
    case Reserved =>
      HasLists(h);
    case Limbo =>
    case Chunk(off, bits, live) =>
      ChunkFacts(h, x);
      if live {
        ProbeInside(h, x, 0);
      } else {
        ProbeLeast(h, x, 0);
        var r := Probe(h, x, 0);
        if r >= 0 { FreeStopsBeyond(h, x, r); }
      }
  }

  lemma HasLists(h: Heap)
    requires Inv(h)
    ensures |h.lists| > 0
  {
  }

  /** The addresses the search takes for a live chunk though none starts there:
      every reserved block, the power-of-two tails of a live chunk, and blocks of a
      free chunk from which an aligned range reaches a marked block beyond it. */
  ghost predicate Mistaken(h: Heap, x: nat)
    requires x < |h.owner|
  {
    match h.owner[x]
    case Reserved => true
    case Limbo => false
    case Chunk(off, bits, live) =>
      if live then x != off && exists k: nat :: x + Pow2(k) == off + Pow2(bits)
      else exists k: nat :: Stops(h, x, k) && x + Pow2(k) > off + Pow2(bits)
  }

  lemma MistakenIff(h: Heap, x: nat)
    requires Settled(h) && x < |h.owner|
    ensures Mistaken(h, x) <==> Probe(h, x, 0) >= 0 && !IsLive(h, x, Probe(h, x, 0))
  {
    ProbeVerdict(h, x);
    hide Inv, Probe, Stops;
    var t, r := h.owner[x], Probe(h, x, 0);
    if t.Chunk? && t.live {
      ChunkFacts(h, x);
      if t.off == x { ProbeLive(h, x, t.bits, 0); }
    }
  }

  // ----- The merge test -----

  /** The state inside Free: exactly the chunk off .. off + Pow2(bits) is in limbo. */
  ghost predicate Merging(h: Heap, off: nat, bits: nat) {
    && Inv(h) && bits < |h.lists| && Aligned(off, bits)
    && AllOwned(h, off, off + Pow2(bits), Limbo)
    && LimboOnlyIn(h, off, off + Pow2(bits))
  }

  /** If the last block of the buddy is not marked, it is the last block of a
      free chunk that lies inside the buddy. */
  lemma UnmarkedIsFree(h: Heap, off: nat, bits: nat)
    requires Merging(h, off, bits) && FlipBit(off, bits) + Pow2(bits) <= |h.owner|
    ensures var last := FlipBit(off, bits) + Pow2(bits) - 1; var t := h.owner[last];
            !Marked(t, last) ==>
              && t.Chunk? && !t.live && t.bits <= bits
              && t.off + Pow2(t.bits) == last + 1
              && (t.bits == bits <==> t.off == FlipBit(off, bits))
  {
    var buddy := FlipBit(off, bits);
    var last := buddy + Pow2(bits) - 1;
    var t := h.owner[last];
    FlipBitAligned(off, bits);
    FlipBitInvolution(off, bits);
    if !Marked(t, last) {
      ChunkFacts(h, last);
      assert h.owner[off].Limbo?;
      if t.bits > bits { NestedBuddy(t.off, t.bits, buddy, bits); }
      Nested(buddy, bits, t.off, t.bits);
      if t.off == buddy && t.bits < bits {
        Pow2Strict(t.bits, bits);
      }
    }
  }

  /** So the word before the end of the buddy is a real trailer, and it names
      the current class exactly when the buddy is wholly free and listed. */
  lemma MergeTestSound(words: seq<Word>, bytes: seq<bv8>, heads: seq<Word>, h: Heap, off: nat, bits: nat)
    requires Merging(h, off, bits) && Rep(words, bytes, heads, h)
    requires FlipBit(off, bits) + Pow2(bits) <= |h.owner|
    ensures var last := FlipBit(off, bits) + Pow2(bits) - 1;
            && (BitAt(bytes, last) ==> FlipBit(off, bits) !in h.lists[bits])
            && (!BitAt(bytes, last) ==>
                 && LEN_OFFSET <= At(words, last, OFF_BITS) <= bits + LEN_OFFSET
                 && (At(words, last, OFF_BITS) == bits + LEN_OFFSET <==> FlipBit(off, bits) in h.lists[bits]))
  {
    hide Pow2, BitAt, FlipBit, Aligned;
    var buddy := FlipBit(off, bits);
    var last := buddy + Pow2(bits) - 1;
    var t := h.owner[last];
    UnmarkedIsFree(h, off, bits);
    if buddy in h.lists[bits] {
      var i := IndexOf(h.lists[bits], buddy);
      NodeBlocks(h, bits, i);
    }
    if !Marked(t, last) {
      TrailerOf(words, h, last);
    }
  }

  lemma TrailerOf(words: seq<Word>, h: Heap, x: nat)
    requires Inv(h) && |words| == 1024 * |h.owner| && ListsInMemory(words, h.lists)
    requires x < |h.owner| && h.owner[x].Chunk? && !h.owner[x].live
    ensures var t := h.owner[x];
            && t.bits < |h.lists| && t.off in h.lists[t.bits]
            && t.off + Pow2(t.bits) <= |h.owner|
            && At(words, t.off + Pow2(t.bits) - 1, OFF_BITS) == t.bits + LEN_OFFSET
  {
    ChunkFacts(h, x);
    var t := h.owner[x];
    assert IsFree(h, t.off, t.bits);
    var i := IndexOf(h.lists[t.bits], t.off);
    assert ListInMemory(words, h.lists[t.bits], t.bits);
    assert NodeOk(words, h.lists[t.bits], t.bits, i);
  }
}
