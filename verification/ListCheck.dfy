/** What Check finds out about one free list. */
module ListCheck {
  import opened Dyadic
  import opened Heaps
  import opened Accounting
  import opened HeapOps
  import opened Bitmaps
  import opened PoolMemory

  /** An entry at offset, of class size and with the given back link, passes the tests. */
  ghost predicate EntryFine(words: seq<Word>, bytes: seq<bv8>, offset: nat, size: nat, prevOffset: int) {
    && HasWord(words, offset, OFF_BITS) && HasWord(words, offset + Pow2(size) - 1, OFF_BITS)
    && AllLooked(bytes, offset, offset + Pow2(size), false)
    && At(words, offset, OFF_MAGIC) == MAGIC
    && At(words, offset, OFF_PREV) == prevOffset
    && At(words, offset + Pow2(size) - 1, OFF_BITS) == size + LEN_OFFSET
  }

  /** Entry i of s passes the tests and links to the next one, the last one to `end`. */
  ghost predicate EntryAt(words: seq<Word>, bytes: seq<bv8>, blocks: nat, s: seq<nat>, b: nat, i: nat, end: int)
    requires i < |s|
  {
    && s[i] < blocks && EntryFine(words, bytes, s[i], b, Prev(s, i))
    && At(words, s[i], OFF_NEXT) == if i + 1 < |s| then s[i + 1] else end
  }

  /** s is the list of class b, from its head to its end. */
  ghost predicate ListFine(words: seq<Word>, bytes: seq<bv8>, heads: seq<Word>, blocks: nat, s: seq<nat>, b: nat) {
    && b < |heads| && heads[b] == Head(s) && Distinct(s)
    && forall i :: 0 <= i < |s| ==> EntryAt(words, bytes, blocks, s, b, i, OURNULL)
  }

  /** s is the list of class b up to, but not including, offset. */
  ghost predicate Walked(words: seq<Word>, bytes: seq<bv8>, heads: seq<Word>, blocks: nat, s: seq<nat>, b: nat,
                         offset: int, prevOffset: int) {
    && b < |heads| && blocks < OURNULL
    && heads[b] == (if s == [] then offset else s[0])
    && prevOffset == (if s == [] then OURNULL else s[|s| - 1])
    && forall i :: 0 <= i < |s| ==> EntryAt(words, bytes, blocks, s, b, i, offset)
  }

  ghost predicate OnTrack(list: seq<nat>, seen: seq<nat>, offset: int) {
    |seen| <= |list| && seen == list[..|seen|] && offset == if |seen| < |list| then list[|seen|] else OURNULL
  }

  function Add32(a: Word, b: nat): (r: Word) {
    (a + b) % 0x1_0000_0000
  }

  lemma AddMod(a: nat, b: nat)
    ensures (a % 0x1_0000_0000 + b) % 0x1_0000_0000 == (a + b) % 0x1_0000_0000
  {
  }

  lemma ShiftMod(a: nat)
    ensures 4096 * (a % 0x1_0000_0000) % 0x1_0000_0000 == Bytes(a) % 0x1_0000_0000
  {
    var q, r := a / 0x1_0000_0000, a % 0x1_0000_0000;
    var q2, r2 := 4096 * r / 0x1_0000_0000, 4096 * r % 0x1_0000_0000;
    DivModUnique(Bytes(a), 0x1_0000_0000, 4096 * q + q2, r2);
  }

  lemma WalkOn(words: seq<Word>, bytes: seq<bv8>, heads: seq<Word>, blocks: nat, s: seq<nat>, b: nat, offset: Word,
               prevOffset: Word, next: Word)
    requires Walked(words, bytes, heads, blocks, s, b, offset, prevOffset)
    requires offset < blocks && EntryFine(words, bytes, offset, b, prevOffset) && At(words, offset, OFF_NEXT) == next
    ensures Walked(words, bytes, heads, blocks, s + [offset], b, next, offset)
  {
    hide EntryFine, At;
    var t := s + [offset];
    forall i | 0 <= i < |t| ensures EntryAt(words, bytes, blocks, t, b, i, next) {
      if i < |s| {
        assert EntryAt(words, bytes, blocks, s, b, i, offset);
        assert Prev(t, i) == Prev(s, i);
      }
    }
  }

  /** Consistent back links rule out cycles: an entry met twice would have two different predecessors. */
  lemma {:induction false} BackLinksDiffer(words: seq<Word>, bytes: seq<bv8>, heads: seq<Word>, blocks: nat,
                                           s: seq<nat>, b: nat, prevOffset: Word, i: nat, j: nat)
    requires Walked(words, bytes, heads, blocks, s, b, OURNULL, prevOffset) && i < j < |s|
    ensures s[i] != s[j]
  {
    assert EntryAt(words, bytes, blocks, s, b, i, OURNULL);
    assert EntryAt(words, bytes, blocks, s, b, j - 1, OURNULL);
    assert EntryAt(words, bytes, blocks, s, b, j, OURNULL);
    if i > 0 { BackLinksDiffer(words, bytes, heads, blocks, s, b, prevOffset, i - 1, j - 1); }
  }

  lemma WalkedAll(words: seq<Word>, bytes: seq<bv8>, heads: seq<Word>, blocks: nat, s: seq<nat>, b: nat,
                  prevOffset: Word)
    requires Walked(words, bytes, heads, blocks, s, b, OURNULL, prevOffset)
    ensures ListFine(words, bytes, heads, blocks, s, b)
  {
    hide EntryFine, At;
    forall i, j | 0 <= i < j < |s| ensures s[i] != s[j] {
      BackLinksDiffer(words, bytes, heads, blocks, s, b, prevOffset, i, j);
    }
  }

  lemma {:induction false} ListBlocksAppend(s: seq<nat>, o: nat, b: nat)
    ensures ListBlocks(s + [o], b) == ListBlocks(s, b) + Pow2(b)
  {
    if s == [] {
      assert ListBlocks([o], b) == Pow2(b) + ListBlocks([], b) by { assert [o][1..] == []; }
    } else {
      ListBlocksAppend(s[1..], o, b);
      assert (s + [o])[1..] == s[1..] + [o];
    }
  }

  /** In a valid state every list entry passes the tests of Check. */
  lemma ListedEntry(words: seq<Word>, bytes: seq<bv8>, heads: seq<Word>, h: Heap, b: nat, i: nat)
    requires Inv(h) && Rep(words, bytes, heads, h) && b < |h.lists| && i < |h.lists[b]|
    ensures h.lists[b][i] + Pow2(b) <= |h.owner|
    ensures EntryFine(words, bytes, h.lists[b][i], b, Prev(h.lists[b], i))
    ensures At(words, h.lists[b][i], OFF_NEXT) == Next(h.lists[b], i)
  {
    hide BitAt;
    assert ListInMemory(words, h.lists[b], b);
    assert NodeOk(words, h.lists[b], b, i);
    NodeBlocks(h, b, i);
  }

  /** What Check accepts as list b: well linked, and no longer than its guard allows. */
  ghost predicate Passes(words: seq<Word>, bytes: seq<bv8>, heads: seq<Word>, blocks: nat, s: seq<nat>, b: nat) {
    ListFine(words, bytes, heads, blocks, s, b) && |s| <= Shift(blocks, b)
  }

  ghost predicate SomePasses(words: seq<Word>, bytes: seq<bv8>, heads: seq<Word>, blocks: nat, b: nat) {
    exists s :: Passes(words, bytes, heads, blocks, s, b)
  }

  /** The next links along s are the same in two pools. */
  ghost predicate SameLinks(words: seq<Word>, words': seq<Word>, s: seq<nat>) {
    |words| == |words'| && forall i :: 0 <= i < |s| && HasWord(words, s[i], OFF_NEXT) ==>
      At(words', s[i], OFF_NEXT) == At(words, s[i], OFF_NEXT)
  }

  /** Whatever a walk has seen agrees with every list that passes, or passed before
      damage that spared its links. */
  lemma {:induction false} WalkAgrees(words: seq<Word>, bytes: seq<bv8>, words': seq<Word>, bytes': seq<bv8>,
                                      heads: seq<Word>, blocks: nat, s: seq<nat>, b: nat,
                                      seen: seq<nat>, offset: int, prevOffset: int)
    requires Passes(words, bytes, heads, blocks, s, b) && SameLinks(words, words', s)
    requires Walked(words', bytes', heads, blocks, seen, b, offset, prevOffset)
    ensures OnTrack(s, seen, offset)
    decreases |seen|
  {
    hide Shift, At, AllLooked;
    if seen != [] {
      var n := |seen| - 1;
      var front, last := seen[..n], seen[n];
      assert EntryAt(words', bytes', blocks, seen, b, n, offset);
      forall i | 0 <= i < n ensures EntryAt(words', bytes', blocks, front, b, i, last) {
        assert EntryAt(words', bytes', blocks, seen, b, i, offset);
        assert Prev(front, i) == Prev(seen, i);
      }
      var prev := if n == 0 then OURNULL else front[n - 1];
      WalkAgrees(words, bytes, words', bytes', heads, blocks, s, b, front, last, prev);
      assert EntryAt(words, bytes, blocks, s, b, n, OURNULL);
      assert seen == front + [last];
    }
  }

  lemma PassingEntry(words: seq<Word>, bytes: seq<bv8>, heads: seq<Word>, blocks: nat, s: seq<nat>, b: nat,
                     seen: seq<nat>, offset: Word, prevOffset: Word)
    requires Passes(words, bytes, heads, blocks, s, b) && OnTrack(s, seen, offset) && offset != OURNULL
    requires Walked(words, bytes, heads, blocks, seen, b, offset, prevOffset)
    ensures offset < blocks && EntryFine(words, bytes, offset, b, prevOffset)
    ensures OnTrack(s, seen + [offset], At(words, offset, OFF_NEXT))
  {
    hide EntryFine, Shift, At;
    assert EntryAt(words, bytes, blocks, s, b, |seen|, OURNULL);
  }

  /** An entry that fails the tests means that no list passes. */
  lemma NoPassingEntry(words: seq<Word>, bytes: seq<bv8>, heads: seq<Word>, blocks: nat, b: nat,
                       seen: seq<nat>, offset: Word, prevOffset: Word)
    requires Walked(words, bytes, heads, blocks, seen, b, offset, prevOffset) && offset != OURNULL
    requires !(offset < blocks && EntryFine(words, bytes, offset, b, prevOffset))
    ensures !SomePasses(words, bytes, heads, blocks, b) && forall s :: !Passes(words, bytes, heads, blocks, s, b)
  {
    hide EntryFine, Walked, Passes, OnTrack;
    forall s ensures !Passes(words, bytes, heads, blocks, s, b) {
      if Passes(words, bytes, heads, blocks, s, b) {
        WalkAgrees(words, bytes, words, bytes, heads, blocks, s, b, seen, offset, prevOffset);
        PassingEntry(words, bytes, heads, blocks, s, b, seen, offset, prevOffset);
      }
    }
  }

  /** When the walk stops, at the end of the list or at the guard, what was seen is
      the only list that can pass. */
  lemma OnlyPassing(words: seq<Word>, bytes: seq<bv8>, heads: seq<Word>, blocks: nat, s: seq<nat>, b: nat,
                    seen: seq<nat>, offset: int, prevOffset: int)
    requires Passes(words, bytes, heads, blocks, s, b)
    requires Walked(words, bytes, heads, blocks, seen, b, offset, prevOffset)
    requires offset != OURNULL ==> |seen| >= Shift(blocks, b)
    ensures offset == OURNULL && seen == s
  {
    hide EntryFine, Shift;
    WalkAgrees(words, bytes, words, bytes, heads, blocks, s, b, seen, offset, prevOffset);
    forall i | 0 <= i < |s| ensures s[i] < blocks { assert EntryAt(words, bytes, blocks, s, b, i, OURNULL); }
  }

  /** No walk along list b comes to an entry whose chunk would end past the pool, so
      the tests read the pool and its part of the map only. */
  ghost predicate StaysInside(words: seq<Word>, bytes: seq<bv8>, heads: seq<Word>, blocks: nat, b: nat) {
    forall s, offset, prevOffset ::
      Walked(words, bytes, heads, blocks, s, b, offset, prevOffset) && 0 <= offset < blocks ==>
        offset + Pow2(b) <= blocks
  }

  /** Damage to a valid state that spares the next links of its lists does not send
      Check past the pool ... */
  lemma DamagedStaysInside(words: seq<Word>, bytes: seq<bv8>, words': seq<Word>, bytes': seq<bv8>, heads: seq<Word>,
                           h: Heap, b: nat)
    requires Inv(h) && Rep(words, bytes, heads, h) && b < |h.lists| == |heads| && |h.owner| < OURNULL
    requires SameLinks(words, words', h.lists[b])
    ensures StaysInside(words', bytes', heads, |h.owner|, b)
  {
    hide Walked, Rep, Inv, EntryFine, Passes, SameLinks;
    ListedPasses(words, bytes, heads, h, b);
    forall s, offset, prevOffset |
        Walked(words', bytes', heads, |h.owner|, s, b, offset, prevOffset) && 0 <= offset < |h.owner|
      ensures offset + Pow2(b) <= |h.owner|
    {
      WalkAgrees(words, bytes, words', bytes', heads, |h.owner|, h.lists[b], b, s, offset, prevOffset);
      ListedEntry(words, bytes, heads, h, b, |s|);
    }
  }

  /** ... and the only list that can pass is the one that was there. */
  lemma DamagedPasses(words: seq<Word>, bytes: seq<bv8>, words': seq<Word>, bytes': seq<bv8>, heads: seq<Word>,
                      h: Heap, b: nat, s: seq<nat>)
    requires Inv(h) && Rep(words, bytes, heads, h) && b < |h.lists| == |heads| && |h.owner| < OURNULL
    requires SameLinks(words, words', h.lists[b]) && Passes(words', bytes', heads, |h.owner|, s, b)
    ensures s == h.lists[b]
  {
    hide Rep, Inv, EntryFine, SameLinks, Shift;
    ListedPasses(words, bytes, heads, h, b);
    var last := if s == [] then OURNULL else s[|s| - 1];
    assert Walked(words', bytes', heads, |h.owner|, s, b, OURNULL, last);
    WalkAgrees(words, bytes, words', bytes', heads, |h.owner|, h.lists[b], b, s, OURNULL, last);
    if |s| < |h.lists[b]| { ListedEntry(words, bytes, heads, h, b, |s|); }
  }

  /** The lists of a valid state pass. */
  lemma ListedPasses(words: seq<Word>, bytes: seq<bv8>, heads: seq<Word>, h: Heap, b: nat)
    requires Inv(h) && Rep(words, bytes, heads, h) && b < |h.lists| == |heads| && |h.owner| < OURNULL
    ensures Passes(words, bytes, heads, |h.owner|, h.lists[b], b)
  {
    hide EntryFine, At;
    ListLengthBound(h, b);
    assert ListOk(h, b);
    forall i | 0 <= i < |h.lists[b]| ensures EntryAt(words, bytes, |h.owner|, h.lists[b], b, i, OURNULL) {
      ListedEntry(words, bytes, heads, h, b, i);
    }
  }

  /** All lists pass, and what is on them is what the byte counter says. */
  ghost predicate Balanced(words: seq<Word>, bytes: seq<bv8>, heads: seq<Word>, blocks: nat, freeBytes: Word,
                           lists: seq<seq<nat>>) {
    && |lists| == |heads|
    && (forall b :: 0 <= b < |lists| ==> Passes(words, bytes, heads, blocks, lists[b], b))
    && freeBytes == Bytes(AllListBlocks(lists)) % 0x1_0000_0000
  }

  /** The map shows nothing live, where it is looked at, in the chunks of list b. */
  ghost predicate MapClear(bytes: seq<bv8>, s: seq<nat>, b: nat) {
    forall i :: 0 <= i < |s| ==> AllLooked(bytes, s[i], s[i] + Pow2(b), false)
  }

  ghost predicate MapsClear(bytes: seq<bv8>, lists: seq<seq<nat>>) {
    forall b :: 0 <= b < |lists| ==> MapClear(bytes, lists[b], b)
  }

  lemma ValidMapsClear(words: seq<Word>, bytes: seq<bv8>, heads: seq<Word>, h: Heap)
    requires Inv(h) && Rep(words, bytes, heads, h)
    ensures MapsClear(bytes, h.lists)
  {
    hide Inv, Rep, At, AllLooked;
    forall b | 0 <= b < |h.lists| ensures MapClear(bytes, h.lists[b], b) {
      forall i | 0 <= i < |h.lists[b]| ensures AllLooked(bytes, h.lists[b][i], h.lists[b][i] + Pow2(b), false) {
        ListedEntry(words, bytes, heads, h, b, i);
      }
    }
  }

  /** A damaged list passes exactly if its nodes are in place and the map is clear. */
  lemma DamagedPassesIff(words: seq<Word>, bytes: seq<bv8>, words': seq<Word>, bytes': seq<bv8>, heads: seq<Word>,
                         h: Heap, b: nat)
    requires Inv(h) && Rep(words, bytes, heads, h) && b < |h.lists| == |heads| && |h.owner| < OURNULL
    requires |words'| == |words|
    ensures Passes(words', bytes', heads, |h.owner|, h.lists[b], b)
       <==> ListInMemory(words', h.lists[b], b) && MapClear(bytes', h.lists[b], b)
  {
    hide Rep, Inv, Shift, AllLooked, EntryAt, NodeOk, Pow2;
    var s := h.lists[b];
    ListedPasses(words, bytes, heads, h, b);
    forall i | 0 <= i < |s|
      ensures EntryAt(words', bytes', |h.owner|, s, b, i, OURNULL)
         <==> NodeOk(words', s, b, i) && AllLooked(bytes', s[i], s[i] + Pow2(b), false)
    {
      DamagedEntryIff(words, bytes, words', bytes', heads, h, b, i);
    }
  }

  lemma DamagedEntryIff(words: seq<Word>, bytes: seq<bv8>, words': seq<Word>, bytes': seq<bv8>, heads: seq<Word>,
                        h: Heap, b: nat, i: nat)
    requires Inv(h) && Rep(words, bytes, heads, h) && b < |h.lists| && i < |h.lists[b]|
    requires |words'| == |words|
    ensures var s := h.lists[b];
            EntryAt(words', bytes', |h.owner|, s, b, i, OURNULL)
            <==> NodeOk(words', s, b, i) && AllLooked(bytes', s[i], s[i] + Pow2(b), false)
  {
    ListedEntry(words, bytes, heads, h, b, i);
    hide Rep, Inv, At, AllLooked;
  }

  /** So Check passes damaged memory exactly if every node of every list survived and
      the map still shows no live block, where it is looked at, in a free chunk. */
  lemma DamagedBalanced(words: seq<Word>, bytes: seq<bv8>, words': seq<Word>, bytes': seq<bv8>, heads: seq<Word>,
                        h: Heap, freeBytes: Word)
    requires Inv(h) && Rep(words, bytes, heads, h) && |h.lists| == |heads| && |h.owner| < OURNULL
    requires freeBytes == Bytes(AllListBlocks(h.lists)) % 0x1_0000_0000
    requires |words'| == |words| && forall b :: 0 <= b < |h.lists| ==> SameLinks(words, words', h.lists[b])
    ensures (exists ls :: Balanced(words', bytes', heads, |h.owner|, freeBytes, ls))
       <==> ListsInMemory(words', h.lists) && MapsClear(bytes', h.lists)
  {
    hide Rep, Inv, Passes, ListInMemory, MapClear, SameLinks;
    forall b | 0 <= b < |h.lists|
      ensures Passes(words', bytes', heads, |h.owner|, h.lists[b], b)
         <==> ListInMemory(words', h.lists[b], b) && MapClear(bytes', h.lists[b], b)
    {
      DamagedPassesIff(words, bytes, words', bytes', heads, h, b);
    }
    forall ls | Balanced(words', bytes', heads, |h.owner|, freeBytes, ls) ensures ls == h.lists {
      forall b | 0 <= b < |h.lists| ensures ls[b] == h.lists[b] {
        DamagedPasses(words, bytes, words', bytes', heads, h, b, ls[b]);
      }
    }
    assert ListsInMemory(words', h.lists) && MapsClear(bytes', h.lists) ==>
      Balanced(words', bytes', heads, |h.owner|, freeBytes, h.lists);
  }

  /** The tests of free chunks do not look at bit n. */
  ghost predicate NowhereLooked(lists: seq<seq<nat>>, n: nat) {
    forall b, i :: 0 <= b < |lists| && 0 <= i < |lists[b]| ==> !Looked(lists[b][i], lists[b][i] + Pow2(b), n)
  }

  /** A flipped bit of the map is seen exactly where the test of a free chunk looks. */
  lemma FlippedClearIff(words: seq<Word>, bytes: seq<bv8>, bytes': seq<bv8>, heads: seq<Word>, h: Heap, n: nat)
    requires Inv(h) && Rep(words, bytes, heads, h)
    requires n < 8 * |bytes| && OneBit(bytes, bytes', n, !BitAt(bytes, n))
    ensures MapsClear(bytes', h.lists) <==> NowhereLooked(h.lists, n)
  {
    hide Inv, Rep, BitAt, Looked, Pow2, AllLooked, OneBit;
    ValidMapsClear(words, bytes, heads, h);
    forall b, i | 0 <= b < |h.lists| && 0 <= i < |h.lists[b]|
      ensures AllLooked(bytes', h.lists[b][i], h.lists[b][i] + Pow2(b), false)
         <==> !Looked(h.lists[b][i], h.lists[b][i] + Pow2(b), n)
    {
      assert MapClear(bytes, h.lists[b], b);
      FlippedRangeIff(bytes, bytes', n, h.lists[b][i], h.lists[b][i] + Pow2(b));
    }
  }
}
