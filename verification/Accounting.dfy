/** Block counts: how many blocks are free, live, reserved or in limbo. */
module Accounting {
  import opened Dyadic
  import opened Heaps

  datatype Kind = KReserved | KLimbo | KFree | KLive

  function KindOf(t: Owner): Kind {
    match t
    case Reserved => KReserved
    case Limbo => KLimbo
    case Chunk(_, _, live) => if live then KLive else KFree
  }

  /** Blocks of kind k among the first n. */
  function CountTo(owner: seq<Owner>, n: nat, k: Kind): (r: nat)
    requires n <= |owner|
  {
    if n == 0 then 0
    else CountTo(owner, n - 1, k) + if KindOf(owner[n - 1]) == k then 1 else 0
  }

  function Count(owner: seq<Owner>, k: Kind): (r: nat) {
    CountTo(owner, |owner|, k)
  }

  lemma {:induction false} CountToTotal(owner: seq<Owner>, n: nat)
    requires n <= |owner|
    ensures CountTo(owner, n, KFree) + CountTo(owner, n, KLive)
          + CountTo(owner, n, KReserved) + CountTo(owner, n, KLimbo) == n
  {
    if n > 0 { CountToTotal(owner, n - 1); }
  }

  /** Every block is counted exactly once. */
  lemma CountTotal(owner: seq<Owner>)
    ensures Count(owner, KFree) + Count(owner, KLive) + Count(owner, KReserved) + Count(owner, KLimbo) == |owner|
  {
    CountToTotal(owner, |owner|);
  }

  /** How many of lo .. hi are among the first n. */
  function Overlap(lo: nat, hi: nat, n: nat): (r: nat) {
    if n <= lo || hi <= lo then 0 else if n <= hi then n - lo else hi - lo
  }

  lemma {:induction false} CountToPaint(owner: seq<Owner>, lo: nat, hi: nat, t: Owner, was: Kind, k: Kind, n: nat)
    requires lo <= hi <= |owner| && n <= |owner|
    requires forall x :: lo <= x < hi ==> KindOf(owner[x]) == was
    ensures CountTo(Paint(owner, lo, hi, t), n, k)
         == CountTo(owner, n, k) - (if k == was then Overlap(lo, hi, n) else 0)
                                 + (if k == KindOf(t) then Overlap(lo, hi, n) else 0)
  {
    if n > 0 { CountToPaint(owner, lo, hi, t, was, k, n - 1); }
  }

  /** Repainting blocks of one kind moves that many blocks between the counts. */
  lemma CountPaint(owner: seq<Owner>, lo: nat, hi: nat, t: Owner, was: Kind, k: Kind)
    requires lo <= hi <= |owner|
    requires forall x :: lo <= x < hi ==> KindOf(owner[x]) == was
    ensures Count(Paint(owner, lo, hi, t), k)
         == Count(owner, k) - (if k == was then hi - lo else 0) + (if k == KindOf(t) then hi - lo else 0)
  {
    CountToPaint(owner, lo, hi, t, was, k, |owner|);
  }

  lemma {:induction false} CountNone(owner: seq<Owner>, k: Kind, n: nat)
    requires n <= |owner| && forall x :: 0 <= x < |owner| ==> KindOf(owner[x]) != k
    ensures CountTo(owner, n, k) == 0
  {
    if n > 0 { CountNone(owner, k, n - 1); }
  }

  function FreeBlocks(h: Heap): (n: nat) {
    Count(h.owner, KFree)
  }

  lemma PushCount(h: Heap, o: nat, b: nat)
    requires b < |h.lists| && AllOwned(h, o, o + Pow2(b), Limbo)
    ensures FreeBlocks(Push(h, o, b)) == FreeBlocks(h) + Pow2(b)
  {
    CountPaint(h.owner, o, o + Pow2(b), Chunk(o, b, false), KLimbo, KFree);
  }

  lemma TakeCount(h: Heap, o: nat, b: nat)
    requires Inv(h) && b < |h.lists| && o in h.lists[b]
    ensures FreeBlocks(Take(h, o, b)) == FreeBlocks(h) - Pow2(b)
  {
    TakeInv(h, o, b);
    CountPaint(h.owner, o, o + Pow2(b), Limbo, KFree, KFree);
  }

  // ----- The same number, read off the free lists -----

  function ListBlocks(s: seq<nat>, b: nat): (n: nat) {
    if s == [] then 0 else Pow2(b) + ListBlocks(s[1..], b)
  }

  function AllListBlocks(lists: seq<seq<nat>>): (n: nat) {
    if |lists| == 0 then 0
    else AllListBlocks(lists[..|lists| - 1]) + ListBlocks(lists[|lists| - 1], |lists| - 1)
  }

  lemma {:induction false} AllListBlocksUpdate(lists: seq<seq<nat>>, b: nat, s: seq<nat>)
    requires b < |lists|
    ensures AllListBlocks(lists[b := s]) == AllListBlocks(lists) - ListBlocks(lists[b], b) + ListBlocks(s, b)
  {
    var n := |lists| - 1;
    if b < n {
      AllListBlocksUpdate(lists[..n], b, s);
      assert lists[b := s][..n] == lists[..n][b := s];
    } else {
      assert lists[b := s][..n] == lists[..n];
    }
  }

  lemma {:induction false} NoFreeNoLists(h: Heap, n: nat)
    requires n <= |h.lists| && forall b :: 0 <= b < n ==> h.lists[b] == []
    ensures AllListBlocks(h.lists[..n]) == 0
  {
    if n > 0 {
      NoFreeNoLists(h, n - 1);
      assert h.lists[..n][..n - 1] == h.lists[..n - 1];
    }
  }

  /** The chunks on the lists add up to exactly the free blocks. */
  lemma {:induction false} ListsAddUp(h: Heap)
    requires Inv(h)
    ensures AllListBlocks(h.lists) == FreeBlocks(h)
    decreases FreeBlocks(h)
  {
    if b :| 0 <= b < |h.lists| && h.lists[b] != [] {
      var o := h.lists[b][0];
      assert o in h.lists[b];
      TakeInv(h, o, b);
      TakeCount(h, o, b);
      ListsAddUp(Take(h, o, b));
      AllListBlocksUpdate(h.lists, b, h.lists[b][1..]);
      assert Without(h.lists[b], o) == h.lists[b][1..];
    } else {
      NoFreeNoLists(h, |h.lists|);
      assert h.lists[..|h.lists|] == h.lists;
      forall x | 0 <= x < |h.owner| ensures KindOf(h.owner[x]) != KFree {
        if KindOf(h.owner[x]) == KFree {
          ChunkFacts(h, x);
          assert IsFree(h, h.owner[x].off, h.owner[x].bits);
        }
      }
      CountNone(h.owner, KFree, |h.owner|);
    }
  }

  /** A listed chunk is no bigger than what is free in all. */
  lemma FreeAtLeast(h: Heap, o: nat, b: nat)
    requires Inv(h) && b < |h.lists| && o in h.lists[b]
    ensures Pow2(b) <= FreeBlocks(h)
  {
    TakeCount(h, o, b);
  }

  // ----- How long a free list can get -----

  function Numbers(s: seq<nat>, b: nat): (r: set<nat>) {
    if s == [] then {} else {Shift(s[0], b)} + Numbers(s[1..], b)
  }

  lemma {:induction false} NumbersMember(s: seq<nat>, b: nat, q: nat)
    requires q in Numbers(s, b)
    ensures exists i :: 0 <= i < |s| && Shift(s[i], b) == q
  {
    if Shift(s[0], b) != q {
      NumbersMember(s[1..], b, q);
      var i :| 0 <= i < |s[1..]| && Shift(s[1..][i], b) == q;
      assert Shift(s[i + 1], b) == q;
    }
  }

  lemma {:induction false} NumbersSize(s: seq<nat>, b: nat)
    requires Distinct(s) && forall i :: 0 <= i < |s| ==> Aligned(s[i], b)
    ensures |Numbers(s, b)| == |s|
  {
    if s != [] {
      NumbersSize(s[1..], b);
      if Shift(s[0], b) in Numbers(s[1..], b) {
        NumbersMember(s[1..], b, Shift(s[0], b));
        var i :| 0 <= i < |s[1..]| && Shift(s[1..][i], b) == Shift(s[0], b);
        ShiftInjective(s[0], s[i + 1], b);
        assert false;
      }
    }
  }

  function Below(n: nat): (r: set<nat>)
    ensures forall q: nat :: q in r <==> q < n
    ensures |r| == n
  {
    if n == 0 then {} else Below(n - 1) + {n - 1}
  }

  lemma SubsetSize(a: set<nat>, b: set<nat>)
    requires a <= b
    ensures |a| <= |b|
  {
    assert b == a + (b - a);
  }

  /** Pigeonhole: a list of class b never has more than poolBlocks >> b entries. */
  lemma ListLengthBound(h: Heap, b: nat)
    requires Inv(h) && b < |h.lists|
    ensures |h.lists[b]| <= Shift(|h.owner|, b)
  {
    var s := h.lists[b];
    assert ListOk(h, b);
    forall i | 0 <= i < |s| ensures Aligned(s[i], b) && s[i] + Pow2(b) <= |h.owner| {
      assert IsFree(h, s[i], b);
      ChunkFacts(h, s[i]);
    }
    NumbersSize(s, b);
    forall q | q in Numbers(s, b) ensures q < Shift(|h.owner|, b) {
      NumbersMember(s, b, q);
      var i :| 0 <= i < |s| && Shift(s[i], b) == q;
      ShiftBound(s[i], b, |h.owner|);
    }
    SubsetSize(Numbers(s, b), Below(Shift(|h.owner|, b)));
  }
}
