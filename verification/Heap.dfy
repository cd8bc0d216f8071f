/** The abstract allocator state: who owns each block, and the free lists.

    `owner` tags every block of the pool with the chunk it belongs to, so a
    block is in exactly one of: a free chunk, a live chunk, the never-released
    part of the pool, or (only in the middle of an operation) in limbo. */
module Heaps {
  import opened Common
  import opened Dyadic

  datatype Owner =
    | Reserved                                    // never handed to the allocator
    | Limbo                                       // taken off its list, not yet anywhere else
    | Chunk(off: nat, bits: nat, live: bool)      // part of the chunk off .. off + Pow2(bits)

  datatype Heap = Heap(owner: seq<Owner>, lists: seq<seq<nat>>)

  // ----- Well-formed states -----

  /** t is a whole chunk of the pool: aligned, inside, and all of its blocks carry the tag. */
  ghost predicate Whole(owner: seq<Owner>, t: Owner)
    requires t.Chunk?
  {
    && t.off + Pow2(t.bits) <= |owner|
    && Aligned(t.off, t.bits)
    && forall y :: t.off <= y < t.off + Pow2(t.bits) ==> owner[y] == t
  }

  ghost predicate BlockOk(owner: seq<Owner>, sizes: nat, x: nat)
    requires x < |owner|
  {
    owner[x].Chunk? ==>
      && owner[x].bits < sizes
      && Within(x, owner[x].off, owner[x].bits)
      && Whole(owner, owner[x])
  }

  ghost predicate OwnersOk(owner: seq<Owner>, sizes: nat) {
    forall x :: 0 <= x < |owner| ==> BlockOk(owner, sizes, x)
  }

  predicate IsFree(h: Heap, o: int, b: nat) {
    0 <= o < |h.owner| && h.owner[o] == Chunk(o, b, false)
  }

  predicate IsLive(h: Heap, o: int, b: nat) {
    0 <= o < |h.owner| && h.owner[o] == Chunk(o, b, true)
  }

  ghost predicate Distinct(s: seq<nat>) {
    forall i, j :: 0 <= i < j < |s| ==> s[i] != s[j]
  }

  /** Every entry of list b is the start of a free chunk of class b, once. */
  ghost predicate ListOk(h: Heap, b: nat)
    requires b < |h.lists|
  {
    && Distinct(h.lists[b])
    && forall i :: 0 <= i < |h.lists[b]| ==> IsFree(h, h.lists[b][i], b)
  }

  ghost predicate ListsOk(h: Heap) {
    forall b :: 0 <= b < |h.lists| ==> ListOk(h, b)
  }

  /** Every free chunk is on the list of its size. */
  ghost predicate Listed(h: Heap) {
    forall o: nat, b: nat :: IsFree(h, o, b) && b < |h.lists| ==> o in h.lists[b]
  }

  ghost predicate Inv(h: Heap) {
    && |h.lists| > 0
    && OwnersOk(h.owner, |h.lists|)
    && ListsOk(h)
    && Listed(h)
  }

  ghost predicate AllOwned(h: Heap, lo: int, hi: int, t: Owner) {
    0 <= lo <= hi <= |h.owner| && forall x :: lo <= x < hi ==> h.owner[x] == t
  }

  /** Nothing is in limbo outside lo .. hi. */
  ghost predicate LimboOnlyIn(h: Heap, lo: int, hi: int) {
    forall x :: 0 <= x < |h.owner| && h.owner[x].Limbo? ==> lo <= x < hi
  }

  /** The state between two calls. */
  ghost predicate Settled(h: Heap) {
    Inv(h) && LimboOnlyIn(h, 0, 0)
  }

  // ----- State changes -----

  function Paint(owner: seq<Owner>, lo: nat, hi: nat, t: Owner): (r: seq<Owner>)
    ensures |r| == |owner|
    ensures forall x :: 0 <= x < |owner| ==> r[x] == if lo <= x < hi then t else owner[x]
  {
    if hi <= lo then owner
    else
      var r := Paint(owner, lo, hi - 1, t);
      if hi <= |owner| then r[hi - 1 := t] else r
  }

  function SetOwner(h: Heap, lo: nat, hi: nat, t: Owner): (r: Heap) {
    h.(owner := Paint(h.owner, lo, hi, t))
  }

  /** Makes o .. o + Pow2(b) a free chunk at the head of its list. */
  function Push(h: Heap, o: nat, b: nat): (r: Heap)
    requires b < |h.lists|
  {
    Heap(Paint(h.owner, o, o + Pow2(b), Chunk(o, b, false)), h.lists[b := [o] + h.lists[b]])
  }

  function Without(s: seq<nat>, o: nat): (r: seq<nat>)
    requires o in s
  {
    s[..IndexOf(s, o)] + s[IndexOf(s, o) + 1..]
  }

  /** Takes the free chunk o off list b and leaves its blocks in limbo. */
  function Take(h: Heap, o: nat, b: nat): (r: Heap)
    requires b < |h.lists| && o in h.lists[b]
  {
    Heap(Paint(h.owner, o, o + Pow2(b), Limbo), h.lists[b := Without(h.lists[b], o)])
  }

  // ----- Basic consequences of Inv -----

  /** Two tags that meet in a block are the same tag. */
  lemma ChunkFacts(h: Heap, x: nat)
    requires Inv(h) && x < |h.owner| && h.owner[x].Chunk?
    ensures h.owner[x].bits < |h.lists|
    ensures Within(x, h.owner[x].off, h.owner[x].bits)
    ensures Whole(h.owner, h.owner[x])
    ensures h.owner[h.owner[x].off] == h.owner[x]
  {
    assert BlockOk(h.owner, |h.lists|, x);
  }

  lemma WithoutFacts(s: seq<nat>, o: nat)
    requires o in s && Distinct(s)
    ensures Distinct(Without(s, o)) && o !in Without(s, o)
    ensures forall p :: p in Without(s, o) <==> p in s && p != o
  {
    var i := IndexOf(s, o);
    assert s == s[..i] + [o] + s[i + 1..];
  }

  /** Painting a range keeps the owners well formed if no chunk straddles its
      ends and the new tag, when it is a chunk, is exactly that range. */
  lemma PaintOk(owner: seq<Owner>, sizes: nat, lo: nat, hi: nat, t: Owner)
    requires OwnersOk(owner, sizes) && lo <= hi <= |owner|
    requires forall x :: lo <= x < hi && owner[x].Chunk? ==>
               lo <= owner[x].off && owner[x].off + Pow2(owner[x].bits) <= hi
    requires t.Chunk? ==> t.off == lo && hi == lo + Pow2(t.bits) && Aligned(lo, t.bits) && t.bits < sizes
    ensures OwnersOk(Paint(owner, lo, hi, t), sizes)
  {
    var r := Paint(owner, lo, hi, t);
    forall x | 0 <= x < |r| ensures BlockOk(r, sizes, x) {
      if !(lo <= x < hi) && owner[x].Chunk? {
        assert BlockOk(owner, sizes, x);
        var c := owner[x];
        forall y | c.off <= y < c.off + Pow2(c.bits) ensures r[y] == c {
          assert owner[y] == c;
        }
      }
    }
  }

  lemma PushInv(h: Heap, o: nat, b: nat)
    requires Inv(h) && b < |h.lists| && Aligned(o, b)
    requires AllOwned(h, o, o + Pow2(b), Limbo)
    ensures Inv(Push(h, o, b))
  {
    var r := Push(h, o, b);
    PaintOk(h.owner, |h.lists|, o, o + Pow2(b), Chunk(o, b, false));
    forall c | 0 <= c < |r.lists| ensures ListOk(r, c) {
      assert ListOk(h, c);
      assert o !in h.lists[c];
    }
    forall p: nat, c: nat | IsFree(r, p, c) && c < |r.lists| ensures p in r.lists[c] {
      if p != o {
        assert IsFree(h, p, c);
      }
    }
  }

  lemma TakeInv(h: Heap, o: nat, b: nat)
    requires Inv(h) && b < |h.lists| && o in h.lists[b]
    ensures IsFree(h, o, b) && Whole(h.owner, Chunk(o, b, false))
    ensures Inv(Take(h, o, b))
    ensures AllOwned(Take(h, o, b), o, o + Pow2(b), Limbo)
  {
    var r := Take(h, o, b);
    assert ListOk(h, b);
    ChunkFacts(h, o);
    PaintOk(h.owner, |h.lists|, o, o + Pow2(b), Limbo);
    WithoutFacts(h.lists[b], o);
    forall c | 0 <= c < |r.lists| ensures ListOk(r, c) {
      assert ListOk(h, c);
      forall i | 0 <= i < |r.lists[c]| ensures IsFree(r, r.lists[c][i], c) {
        var p := r.lists[c][i];
        assert p in r.lists[c];
        assert p in h.lists[c] && IsFree(h, p, c);
      }
    }
    forall p: nat, c: nat | IsFree(r, p, c) && c < |r.lists| ensures p in r.lists[c] {
      assert IsFree(h, p, c);
    }
  }

  /** Painting blocks that are not free, with a tag that is not free, keeps the lists. */
  lemma SetOwnerInv(h: Heap, lo: nat, hi: nat, t: Owner)
    requires Inv(h) && lo <= hi <= |h.owner|
    requires forall x :: lo <= x < hi && h.owner[x].Chunk? ==>
               lo <= h.owner[x].off && h.owner[x].off + Pow2(h.owner[x].bits) <= hi && h.owner[x].live
    requires t.Chunk? ==>
               t.live && t.off == lo && hi == lo + Pow2(t.bits) && Aligned(lo, t.bits) && t.bits < |h.lists|
    ensures Inv(SetOwner(h, lo, hi, t))
  {
    var r := SetOwner(h, lo, hi, t);
    PaintOk(h.owner, |h.lists|, lo, hi, t);
    forall c | 0 <= c < |r.lists| ensures ListOk(r, c) {
      assert ListOk(h, c);
    }
    forall p: nat, c: nat | IsFree(r, p, c) && c < |r.lists| ensures p in r.lists[c] {
      assert IsFree(h, p, c);
    }
  }
}
