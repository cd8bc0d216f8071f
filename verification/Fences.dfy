/** Fences: numbers the device reports back as it works through its queue.  They
    are counted here without bound; the driver sees them modulo a 32-bit wrap. */
module Fences {
  import opened Fifos

  const CMD_FENCE: Word := 30

  /** 32-bit value of the t-th fence inserted; 0 means no fence, so the values
      after 0xFFFFFFFF start again at 1. */
  function Rep(t: nat): (r: nat)
    ensures r < 0x1_0000_0000 && (r == 0 <==> t == 0)
  {
    if t == 0 then 0 else 1 + (t - 1) % 0xFFFF_FFFF
  }

  lemma RepNext(t: nat)
    ensures Rep(t + 1) == if Rep(t) == 0xFFFF_FFFF then 1 else Rep(t) + 1
  {
  }

  /** How often the counter has wrapped when the t-th fence is inserted. */
  function Wraps(t: nat): (r: nat) {
    if t == 0 then 0 else (t - 1) / 0xFFFF_FFFF
  }

  /** HasFencePassedUnguarded: the sign of the 32-bit difference. */
  predicate Passed(register: nat, fence: nat) {
    (register - fence) % 0x1_0000_0000 < 0x8000_0000
  }

  /** The driver's counter and the device capability it depends on. */
  class FenceCounter {
    const hasFence: bool
    var next: nat
    ghost var inserted: nat

    ghost predicate Valid()
      reads this
    {
      hasFence ==> next == (Rep(inserted) + 1) % 0x1_0000_0000
    }

    constructor (capable: bool)
      ensures Valid() && inserted == 0 && hasFence == capable
    {
      hasFence, next, inserted := capable, 1, 0;
    }

    /** InsertFence; without the capability every fence reads 1.  The FIFO refuses it
        exactly if it is in the middle of another command or shorter than two words;
        then the fence is 0. */
    method Insert(fifo: Fifo, takes: seq<nat>) returns (status: Fifos.Status, fence: nat)
      requires Valid() && fifo.Valid()
      modifies this, fifo, fifo.mem, fifo.bounce
      ensures Valid() && inserted == old(inserted) + 1
      ensures fifo.Valid() && old(fifo.taken) <= fifo.taken && fifo.reserved == old(fifo.reserved)
      ensures !hasFence ==> status == Granted
      ensures hasFence && (old(fifo.reserved) > 0 || fifo.max - fifo.min < 2) <==> status !in {Granted, Waiting}
      ensures hasFence && status in {Granted, Waiting} ==>
                (status == Granted <==> takes != [] && 2 < old(fifo.FreeAfter(takes, |takes|)))
      ensures fence == if status == Granted then Stored(inserted, hasFence) else 0
      ensures fifo.sent == if hasFence && status == Granted then old(fifo.sent) + [CMD_FENCE, fence] else old(fifo.sent)
    {
      hide Rep, Fifo.Valid, Fifo.FreeAfter;
      RepNext(inserted);
      inserted := inserted + 1;
      if !hasFence { return Granted, 1; }
      if next == 0 { next := 1; }
      fence := next;
      next := (next + 1) % 0x1_0000_0000;
      status := fifo.Send([CMD_FENCE, fence], takes);
      if status != Granted { fence := 0; }
    }
  }

  /** What InsertFence returned for the t-th fence; 0 for none. */
  function Stored(t: nat, hasFence: bool): (r: nat)
    ensures r == 0 <==> t == 0
  {
    if t == 0 then 0 else if hasFence then Rep(t) else 1
  }

  // ----- The 32-bit comparison -----

  lemma RepWraps(t: nat)
    ensures t > 0 ==> Rep(t) == t - 0xFFFF_FFFF * Wraps(t) && 1 <= Rep(t) <= 0xFFFF_FFFF
  {
  }

  /** What the comparison says of any two fences: the sign of their distance, each
      wrap of the counter counting for one more, modulo 2^32. */
  lemma PassedIff(p: nat, f: nat)
    requires f > 0
    ensures Passed(Rep(p), Rep(f)) <==> (p - f + Wraps(p) - Wraps(f)) % 0x1_0000_0000 < 0x8000_0000
  {
    RepWraps(p);
    RepWraps(f);
    Congruent(Rep(p) - Rep(f), p - f + Wraps(p) - Wraps(f), Wraps(f) - Wraps(p));
  }

  lemma Congruent(a: int, b: int, k: int)
    requires a == b + 0x1_0000_0000 * k
    ensures a % 0x1_0000_0000 == b % 0x1_0000_0000
  {
  }

  /** Two fences less than a whole round apart are at most one wrap apart. */
  lemma WrapsClose(a: nat, b: nat)
    requires a <= b < a + 0xFFFF_FFFF
    ensures Wraps(b) == Wraps(a) || Wraps(b) == Wraps(a) + 1
  {
  }

  /** Less than half a round apart the comparison is right. */
  lemma PassedExact(p: nat, f: nat)
    requires 0 < f && p - f < 0x7FFF_FFFF && f - p < 0x8000_0000
    ensures Passed(Rep(p), Rep(f)) <==> f <= p
  {
    PassedIff(p, f);
    if f <= p { WrapsClose(f, p); } else { WrapsClose(p, f); }
  }

  /** Half a round later a fence that passed reads as one that has not. */
  lemma StaleFence()
    ensures !Passed(Rep(0x8000_0001), Rep(1))
  {
  }

  // ----- Waiting for a fence -----

  /** One look at the device: the last fence passed and whether it is busy. */
  datatype Poll = Poll(passed: nat, busy: bool)

  /** The device only moves on, and is idle only when it has passed everything
      inserted; fewer than half a round of fences are in flight. */
  ghost predicate Trace(polls: seq<Poll>, inserted: nat) {
    && (forall k :: 0 <= k < |polls| ==>
          && polls[k].passed <= inserted < polls[k].passed + 0x7FFF_FFFF
          && (!polls[k].busy ==> polls[k].passed == inserted))
    && (forall j, k :: 0 <= j <= k < |polls| ==> polls[j].passed <= polls[k].passed)
  }

  /** From the j-th look on the device is idle. */
  ghost predicate IdleFrom(polls: seq<Poll>, j: nat) {
    forall k :: j <= k < |polls| ==> !polls[k].busy
  }

  /** A fence in the trace never reads as passed before it is. */
  lemma NoFalsePass(p: nat, f: nat, inserted: nat)
    requires 0 < f <= inserted && p <= inserted < p + 0x7FFF_FFFF
    ensures Passed(Rep(p), Rep(f)) ==> f <= p
    ensures f <= p && !Passed(Rep(p), Rep(f)) ==> p - f >= 0x7FFF_FFFF
  {
    if p < f || p - f < 0x7FFF_FFFF { PassedExact(p, f); }
  }

  /** SyncToFence: each read of the device takes the next look.  When it returns
      (`done`) the fence has passed, whatever its age and wherever the counter has
      wrapped; the complaint is made only about fences that passed long ago. */
  method SyncToFence(fence: nat, hasFence: bool, polls: seq<Poll>, ghost f: nat, ghost inserted: nat)
    returns (done: bool, n: nat, warned: bool)
    requires f <= inserted && fence == Stored(f, hasFence) && Trace(polls, inserted)
    ensures n <= |polls|
    ensures f == 0 ==> done && n == 0
    ensures f > 0 && done ==> n > 0 && f <= polls[n - 1].passed
    ensures warned ==> hasFence && n > 0 && polls[n - 1].passed - f >= 0x7FFF_FFFF
    ensures warned <==> hasFence && f > 0 && done && !Passed(Rep(polls[n - 1].passed), Rep(f))
    // it does not wait longer than it has to
    ensures hasFence && f > 0 && |polls| > 0 && 0 <= polls[0].passed - f < 0x7FFF_FFFF ==> done && n == 1
    ensures hasFence && f > 0 ==>
              forall k :: 0 <= k < n - 1 && (k == 0 || k % 2 == 1) ==> !Passed(Rep(polls[k].passed), Rep(f))
    ensures !hasFence && f > 0 ==>
              && (done ==> !polls[n - 1].busy)
              && forall k :: 0 <= k < n && (k < n - 1 || !done) ==> polls[k].busy
    ensures f > 0 && !done ==> n == |polls|
    ensures forall j: nat :: IdleFrom(polls, j) && j + 4 <= |polls| ==> done
  {
    hide Rep, Passed;
    n, warned := 0, false;
    if fence == 0 { return true, 0, false; }
    if !hasFence {
      while n < |polls|
        invariant n <= |polls| && forall k :: 0 <= k < n ==> polls[k].busy
      {
        n := n + 1;
        if !polls[n - 1].busy { return true, n, false; }
      }
      assert |polls| > 0 ==> polls[|polls| - 1].busy;
      return false, n, false;
    }
    if |polls| == 0 { return false, 0, false; }
    n := 1;
    NoFalsePass(polls[0].passed, f, inserted);
    if 0 <= polls[0].passed - f < 0x7FFF_FFFF { PassedExact(polls[0].passed, f); }
    if Passed(Rep(polls[0].passed), fence) { return true, n, false; }
    while n < |polls|
      invariant 1 <= n <= |polls| && n % 2 == 1 && (n > 1 ==> polls[n - 1].busy)
      invariant forall k :: 0 <= k < n && (k == 0 || k % 2 == 1) ==> !Passed(Rep(polls[k].passed), fence)
    {
      n := n + 1;
      NoFalsePass(polls[n - 1].passed, f, inserted);
      if Passed(Rep(polls[n - 1].passed), fence) { return true, n, false; }
      if n == |polls| { break; }
      n := n + 1;
      if polls[n - 1].busy { continue; }
      if n == |polls| { break; }
      n := n + 1;
      NoFalsePass(polls[n - 1].passed, f, inserted);
      return true, n, !Passed(Rep(polls[n - 1].passed), fence);
    }
    assert forall j: nat :: IdleFrom(polls, j) && j < n - 2 ==> !polls[n - 3].busy;
    done := false;
  }
}
