/** Free-list nodes as words of the pool: reading, linking and unlinking them. */
module ListNodes {
  import opened Dyadic
  import opened Heaps
  import opened Bitmaps
  import opened PoolMemory
  import opened AllocatorFrame

  method Poke(p: array<Word>, x: nat, k: nat, v: Word)
    requires HasWord(p[..], x, k)
    modifies p
    ensures OneWord(old(p[..]), p[..], x, k, v)
  {
    OneWordUpdate(p[..], x, k, v);
    p[1024 * x + k] := v;
    assert p[..] == old(p[..])[1024 * x + k := v];
  }

  method Peek(p: array<Word>, x: nat, k: nat) returns (v: Word)
    requires HasWord(p[..], x, k)
    ensures v == At(p[..], x, k)
  {
    v := p[1024 * x + k];
  }

  /** Writes header and trailer of a chunk that goes before `next` on its list. */
  method WriteNode(p: array<Word>, o: nat, bits: nat, next: Word)
    requires HasWord(p[..], o, OFF_BITS) && HasWord(p[..], o + Pow2(bits) - 1, OFF_BITS)
    requires next != OURNULL ==> HasWord(p[..], next, OFF_BITS) && !Within(next, o, bits)
    requires o < OURNULL && bits < NUM_SIZES
    modifies p
    ensures Linked(old(p[..]), p[..], o, bits, next)
  {
    hide Pow2, At;
    Poke(p, o, OFF_MAGIC, MAGIC);
    Poke(p, o, OFF_PREV, OURNULL);
    Poke(p, o, OFF_NEXT, next);
    Poke(p, o + Pow2(bits) - 1, OFF_BITS, bits + LEN_OFFSET);
    if next != OURNULL {
      Poke(p, next, OFF_PREV, o);
    }
  }

  /** As WriteNode, in the order of Free and with its checks on the next entry. */
  method CheckedWriteNode(p: array<Word>, poolBlocks: nat, o: nat, bits: nat, next: Word) returns (status: Status)
    requires |p[..]| == 1024 * poolBlocks && o + Pow2(bits) <= poolBlocks && o < OURNULL && bits < NUM_SIZES
    requires next != OURNULL ==>
               && next < poolBlocks && !Within(next, o, bits)
               && At(p[..], next, OFF_MAGIC) == MAGIC && At(p[..], next, OFF_PREV) == OURNULL
    modifies p
    ensures status == Success && Linked(old(p[..]), p[..], o, bits, next)
  {
    hide Pow2, At;
    Poke(p, o, OFF_MAGIC, MAGIC);
    Poke(p, o, OFF_PREV, OURNULL);
    if next != OURNULL {
      if next >= poolBlocks { return InternalError; }
      var nextMagic := Peek(p, next, OFF_MAGIC);
      if nextMagic != MAGIC { return InternalError; }
      var nextPrev := Peek(p, next, OFF_PREV);
      if nextPrev != OURNULL { return InternalError; }
      Poke(p, next, OFF_PREV, o);
    }
    Poke(p, o, OFF_NEXT, next);
    Poke(p, o + Pow2(bits) - 1, OFF_BITS, bits + LEN_OFFSET);
    status := Success;
  }

  lemma HeadNode(words: seq<Word>, bytes: seq<bv8>, heads: seq<Word>, h: Heap, b: nat)
    requires Inv(h) && Rep(words, bytes, heads, h) && b < |h.lists|
    ensures h.lists[b] != [] ==>
              && h.lists[b][0] < |h.owner|
              && At(words, h.lists[b][0], OFF_MAGIC) == MAGIC && At(words, h.lists[b][0], OFF_PREV) == OURNULL
  {
    if h.lists[b] != [] {
      NodeBlocks(h, b, 0);
      assert ListInMemory(words, h.lists[b], b);
      assert NodeOk(words, h.lists[b], b, 0);
    }
  }

  /** Entry i of list s and its neighbours, as they stand in memory. */
  ghost predicate Around(words: seq<Word>, blocks: nat, s: seq<nat>, b: nat, i: nat) {
    && i < |s| && blocks < OURNULL && |words| == 1024 * blocks && b < NUM_SIZES
    && NodeOk(words, s, b, i) && s[i] < blocks && s[i] + Pow2(b) <= blocks
    && (i > 0 ==> NodeOk(words, s, b, i - 1) && s[i - 1] < blocks && !Within(s[i - 1], s[i], b))
    && (i + 1 < |s| ==> NodeOk(words, s, b, i + 1) && s[i + 1] < blocks && !Within(s[i + 1], s[i], b))
    && (i > 0 && i + 1 < |s| ==> s[i - 1] != s[i + 1])
  }

  lemma AroundBlocks(h: Heap, b: nat, i: nat)
    requires Inv(h) && b < |h.lists| && i < |h.lists[b]|
    ensures var s := h.lists[b];
            && s[i] < |h.owner| && s[i] + Pow2(b) <= |h.owner|
            && (i > 0 ==> s[i - 1] < |h.owner| && !Within(s[i - 1], s[i], b))
            && (i + 1 < |s| ==> s[i + 1] < |h.owner| && !Within(s[i + 1], s[i], b))
            && (i > 0 && i + 1 < |s| ==> s[i - 1] != s[i + 1])
  {
    var s := h.lists[b];
    NodeBlocks(h, b, i);
    if i > 0 { NodeBlocks(h, b, i - 1); NodesDiffer(h, b, i - 1, b, i); }
    if i + 1 < |s| { NodeBlocks(h, b, i + 1); NodesDiffer(h, b, i, b, i + 1); }
    if i > 0 && i + 1 < |s| { NodesDiffer(h, b, i - 1, b, i + 1); }
  }

  lemma InList(words: seq<Word>, bytes: seq<bv8>, heads: seq<Word>, h: Heap, b: nat, i: nat)
    requires Inv(h) && Rep(words, bytes, heads, h) && b < |h.lists| == NUM_SIZES && i < |h.lists[b]|
    ensures Around(words, |h.owner|, h.lists[b], b, i)
  {
    var s := h.lists[b];
    assert ListInMemory(words, s, b);
    AroundBlocks(h, b, i);
    hide Inv, Pow2, BitAt, AllOwned, ListsInMemory;
  }

  /** The words of a chunk are as they were. */
  ghost predicate SameInside(a: seq<Word>, b: seq<Word>, o: nat, bits: nat) {
    |a| == |b| && forall x: nat, k: nat :: HasWord(a, x, k) && Within(x, o, bits) ==> At(b, x, k) == At(a, x, k)
  }

  /** Header and trailer of a chunk are zero, its other words as they were. */
  ghost predicate Wiped(a: seq<Word>, b: seq<Word>, o: nat, bits: nat) {
    && |a| == |b|
    && forall x: nat, k: nat :: HasWord(a, x, k) && Within(x, o, bits) ==>
         At(b, x, k) == if (x == o && k <= OFF_NEXT) || (x == o + Pow2(bits) - 1 && k == OFF_BITS) then 0
                        else At(a, x, k)
  }

  /** Links the first entry of a list out, with the checks BuddyMalloc makes. */
  method UnlinkFirst(p: array<Word>, poolBlocks: nat, offset: nat, b: nat, ghost s: seq<nat>)
    returns (status: Status, next: Word)
    requires Around(p[..], poolBlocks, s, b, 0) && offset == s[0]
    modifies p
    ensures status == Success && next == Next(s, 0)
    ensures Unlinked(old(p[..]), p[..], s, 0, b) && SameInside(old(p[..]), p[..], s[0], b)
  {
    hide Pow2, At;
    next := OURNULL;
    var magic := Peek(p, offset, OFF_MAGIC);
    if magic != MAGIC { return InternalError, next; }
    var prev := Peek(p, offset, OFF_PREV);
    if prev != OURNULL { return InternalError, next; }
    var trailer := Peek(p, offset + Pow2(b) - 1, OFF_BITS);
    if trailer != b + LEN_OFFSET { return InternalError, next; }
    next := Peek(p, offset, OFF_NEXT);
    if next != OURNULL {
      if next >= poolBlocks { return InternalError, next; }
      var nextMagic := Peek(p, next, OFF_MAGIC);
      var nextPrev := Peek(p, next, OFF_PREV);
      if nextMagic != MAGIC || nextPrev != offset { return InternalError, next; }
      Poke(p, next, OFF_PREV, OURNULL);
    }
    status := Success;
  }

  /** The header words around entry i. */
  ghost predicate Headers(words: seq<Word>, blocks: nat, s: seq<nat>, i: nat) {
    && i < |s| && blocks < OURNULL && |words| == 1024 * blocks && s[i] < blocks
    && At(words, s[i], OFF_MAGIC) == MAGIC
    && At(words, s[i], OFF_PREV) == Prev(s, i)
    && At(words, s[i], OFF_NEXT) == Next(s, i)
    && (i > 0 ==> s[i - 1] < blocks && At(words, s[i - 1], OFF_MAGIC) == MAGIC && At(words, s[i - 1], OFF_NEXT) == s[i])
    && (i + 1 < |s| ==>
         s[i + 1] < blocks && At(words, s[i + 1], OFF_MAGIC) == MAGIC && At(words, s[i + 1], OFF_PREV) == s[i])
  }

  /** The checks Free makes on a buddy before it merges with it. */
  method CheckNode(p: array<Word>, poolBlocks: nat, buddy: nat, head: Word, ghost s: seq<nat>, ghost i: nat)
    returns (status: Status, prev: Word, next: Word)
    requires Headers(p[..], poolBlocks, s, i) && buddy == s[i] && head != OURNULL
    ensures status == Success && prev == Prev(s, i) && next == Next(s, i)
  {
    hide At;
    prev, next := OURNULL, OURNULL;
    var magic := Peek(p, buddy, OFF_MAGIC);
    if magic != MAGIC { return InternalError, prev, next; }
    if head == OURNULL { return InternalError, prev, next; }
    prev := Peek(p, buddy, OFF_PREV);
    if prev != OURNULL {
      if prev >= poolBlocks { return InternalError, prev, next; }
      var prevMagic := Peek(p, prev, OFF_MAGIC);
      if prevMagic != MAGIC { return InternalError, prev, next; }
      var prevNext := Peek(p, prev, OFF_NEXT);
      if prevNext != buddy { return InternalError, prev, next; }
    }
    next := Peek(p, buddy, OFF_NEXT);
    if next != OURNULL {
      if next >= poolBlocks { return InternalError, prev, next; }
      var nextMagic := Peek(p, next, OFF_MAGIC);
      if nextMagic != MAGIC { return InternalError, prev, next; }
      var nextPrev := Peek(p, next, OFF_PREV);
      if nextPrev != buddy { return InternalError, prev, next; }
    }
    status := Success;
  }

  /** Joins the neighbours of a chunk and wipes its header. */
  method Rewire(p: array<Word>, buddy: nat, prev: Word, next: Word)
    requires HasWord(p[..], buddy, OFF_BITS)
    requires prev != OURNULL ==> HasWord(p[..], prev, OFF_BITS)
    requires next != OURNULL ==> HasWord(p[..], next, OFF_BITS)
    requires prev != buddy && next != buddy && |p[..]| < 0x4000_0000
    modifies p
    ensures |p[..]| == |old(p[..])|
    ensures forall x: nat, k: nat :: HasWord(p[..], x, k) ==>
              At(p[..], x, k) == if x == buddy && k <= OFF_NEXT then 0
                                 else if x == next && k == OFF_PREV then prev
                                 else if x == prev && k == OFF_NEXT then next
                                 else At(old(p[..]), x, k)
  {
    hide At;
    if next != OURNULL { Poke(p, next, OFF_PREV, prev); }
    if prev != OURNULL { Poke(p, prev, OFF_NEXT, next); }
    Poke(p, buddy, OFF_MAGIC, 0);
    Poke(p, buddy, OFF_PREV, 0);
    Poke(p, buddy, OFF_NEXT, 0);
  }

  /** Links any entry out and wipes its header and trailer, as Free does. */
  method UnlinkAny(p: array<Word>, poolBlocks: nat, buddy: nat, bits: nat, head: Word, ghost s: seq<nat>, ghost i: nat)
    returns (status: Status, prev: Word, next: Word)
    requires Around(p[..], poolBlocks, s, bits, i) && buddy == s[i] && head != OURNULL
    requires |p[..]| < 0x4000_0000
    modifies p
    ensures status == Success && prev == Prev(s, i) && next == Next(s, i) && (prev == OURNULL <==> i == 0)
    ensures Unlinked(old(p[..]), p[..], s, i, bits) && Wiped(old(p[..]), p[..], s[i], bits)
  {
    hide Pow2, At;
    Poke(p, buddy + Pow2(bits) - 1, OFF_BITS, 0);
    assert Headers(p[..], poolBlocks, s, i);
    status, prev, next := CheckNode(p, poolBlocks, buddy, head, s, i);
    if status != Success { return; }
    Rewire(p, buddy, prev, next);
  }

  lemma NotBeyond(h: Heap, o: nat, b: nat)
    requires Inv(h) && b < |h.lists| && o + Pow2(b) > |h.owner|
    ensures o !in h.lists[b]
  {
    if o in h.lists[b] { TakeInv(h, o, b); }
  }

  method CopyWords(p: array<Word>, src: nat, dst: nat, n: nat)
    requires 1024 * (src + n) <= p.Length && 1024 * (dst + n) <= p.Length && (src + n <= dst || dst + n <= src)
    modifies p
    ensures CopyOf(old(p[..]), p[..], src, dst, n) && SameWordsOutside(old(p[..]), p[..], dst, n)
  {
    var i := 0;
    while i < 1024 * n
      invariant 0 <= i <= 1024 * n
      invariant forall j :: 0 <= j < p.Length ==>
                  p[j] == if 1024 * dst <= j < 1024 * dst + i then old(p[j - 1024 * dst + 1024 * src]) else old(p[j])
    {
      p[1024 * dst + i] := p[1024 * src + i];
      i := i + 1;
    }
  }
}
