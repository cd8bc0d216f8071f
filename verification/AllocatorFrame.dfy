/** What an operation of the allocator leaves alone. */
module AllocatorFrame {
  import opened Dyadic
  import opened Heaps
  import opened Runs
  import opened PoolMemory

  datatype Status =
    | Success
    | BadArgument
    | NoMemory
    | NoResources
    | NotAligned
    | BadMedia
    | InternalError

  const NUM_SIZES: nat := 13

  predicate InUse(t: Owner) {
    t.Reserved? || (t.Chunk? && t.live)
  }

  /** Words of reserved blocks and of live chunks are the same in a and b. */
  ghost predicate Keeps(a: seq<Word>, b: seq<Word>, owner: seq<Owner>) {
    && |a| == |b|
    && forall x: nat, k: nat :: HasWord(a, x, k) && x < |owner| && InUse(owner[x]) ==> At(b, x, k) == At(a, x, k)
  }

  lemma KeepsSelf(a: seq<Word>, o: seq<Owner>)
    ensures Keeps(a, a, o)
  {
  }

  ghost predicate StillInUse(before: seq<Owner>, after: seq<Owner>) {
    |before| == |after| && forall x :: 0 <= x < |before| && InUse(before[x]) ==> after[x] == before[x]
  }

  lemma KeepsTrans(a: seq<Word>, b: seq<Word>, c: seq<Word>, o: seq<Owner>, p: seq<Owner>)
    requires Keeps(a, b, o) && StillInUse(o, p) && Keeps(b, c, p)
    ensures Keeps(a, c, o)
  {
  }

  lemma StillInUseTrans(o: seq<Owner>, p: seq<Owner>, q: seq<Owner>)
    requires StillInUse(o, p) && StillInUse(p, q)
    ensures StillInUse(o, q)
  {
  }

  /** The owners once the live chunk at off is given up. */
  ghost function OwnersBut(h: Heap, off: nat): (r: seq<Owner>)
    requires LiveAt(h, off)
  {
    Paint(h.owner, off, off + Pow2(h.owner[off].bits), Limbo)
  }

  /** Blocks src .. src + n of a are blocks dst .. dst + n of b. */
  ghost predicate CopyOf(a: seq<Word>, b: seq<Word>, src: nat, dst: nat, n: nat) {
    && |a| == |b| && 1024 * (src + n) <= |a| && 1024 * (dst + n) <= |b|
    && forall x: nat, k: nat :: dst <= x < dst + n && HasWord(b, x, k) ==> At(b, x, k) == At(a, x - dst + src, k)
  }

  ghost predicate SameWordsOutside(a: seq<Word>, b: seq<Word>, dst: nat, n: nat) {
    && |a| == |b|
    && forall x: nat, k: nat :: HasWord(a, x, k) && !(dst <= x < dst + n) ==> At(b, x, k) == At(a, x, k)
  }

  lemma LinkKeeps(a: seq<Word>, b: seq<Word>, h: Heap, o: nat, bits: nat)
    requires Inv(h) && bits < |h.lists| && |a| == 1024 * |h.owner| < 0x4000_0000
    requires AllOwned(h, o, o + Pow2(bits), Limbo) && Linked(a, b, o, bits, Head(h.lists[bits]))
    ensures Keeps(a, b, h.owner)
  {
    if h.lists[bits] != [] { NodeBlocks(h, bits, 0); }
  }

  /** Only the neighbours of the entry changed outside its own blocks. */
  lemma UnlinkRest(h: Heap, a: seq<Word>, b: seq<Word>, bits: nat, i: nat)
    requires Inv(h) && bits < |h.lists| && i < |h.lists[bits]| && |a| == 1024 * |h.owner| < 0x4000_0000
    requires Unlinked(a, b, h.lists[bits], i, bits)
    ensures Keeps(a, b, h.owner)
  {
    NodeBlocks(h, bits, i);
    if i > 0 { NodeBlocks(h, bits, i - 1); }
    if i + 1 < |h.lists[bits]| { NodeBlocks(h, bits, i + 1); }
  }
}
