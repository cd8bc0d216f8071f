/** The command FIFO: a ring in memory shared with the device.  The driver moves
    NEXT_CMD, the device moves STOP, and the ring is empty when they meet. */
module Fifos {
  type Word = w: nat | w < 0x1_0000_0000

  const BOUNCE_WORDS := 0x4000   // BOUNCE_BUFFER_SIZE in words

  // ----- The ring as a value; positions are word offsets in [min, max) -----

  function Wrap(min: nat, max: nat, p: nat): (r: nat)
    requires min < max
    ensures min <= p < max + (max - min) ==> min <= r < max
  {
    if p >= max then p - (max - min) else p
  }

  function Used(min: nat, max: nat, stop: nat, next: nat): (n: nat)
    requires min <= stop < max && min <= next < max
    ensures n < max - min
  {
    if stop <= next then next - stop else (max - stop) + (next - min)
  }

  /** The words between STOP and NEXT_CMD, oldest first. */
  function Ring(mem: seq<Word>, min: nat, max: nat, stop: nat, next: nat): (r: seq<Word>)
    requires min <= stop < max <= |mem| && min <= next < max
    ensures |r| == Used(min, max, stop, next)
    ensures forall i :: 0 <= i < |r| ==> r[i] == mem[Wrap(min, max, stop + i)]
  {
    if stop <= next then mem[stop..next] else mem[stop..max] + mem[min..next]
  }

  /** The device reads from the front. */
  lemma RingTake(mem: seq<Word>, min: nat, max: nat, stop: nat, next: nat, k: nat)
    requires min <= stop < max <= |mem| && min <= next < max && k <= Used(min, max, stop, next)
    ensures var stop' := Wrap(min, max, stop + k);
            && Used(min, max, stop', next) == Used(min, max, stop, next) - k
            && Ring(mem, min, max, stop', next) == Ring(mem, min, max, stop, next)[k..]
  {
  }

  /** Nothing between NEXT_CMD and STOP belongs to the ring. */
  lemma RingSame(m0: seq<Word>, m1: seq<Word>, min: nat, max: nat, stop: nat, next: nat, n: nat)
    requires min <= stop < max <= |m0| == |m1| && min <= next < max && n < max - min - Used(min, max, stop, next)
    requires forall p :: min <= p < max && m1[p] != m0[p] ==> Used(min, max, next, p) < n
    ensures Ring(m1, min, max, stop, next) == Ring(m0, min, max, stop, next)
  {
    var r0, r1 := Ring(m0, min, max, stop, next), Ring(m1, min, max, stop, next);
    forall i | 0 <= i < |r0| ensures r0[i] == r1[i] {
      assert min <= Wrap(min, max, stop + i) < max;
    }
  }

  lemma RingPoke(mem: seq<Word>, min: nat, max: nat, stop: nat, next: nat, w: Word)
    requires min <= stop < max <= |mem| && min <= next < max && 1 < max - min - Used(min, max, stop, next)
    ensures Ring(mem[next := w], min, max, stop, next) == Ring(mem, min, max, stop, next)
  {
    RingSame(mem, mem[next := w], min, max, stop, next, 1);
  }

  /** A copy in two pieces, to the end of the ring and from its start, puts the
      words where they belong and leaves the ring alone. */
  lemma WrappedCopy(m0: seq<Word>, m1: seq<Word>, ws: seq<Word>, min: nat, max: nat, stop: nat, next: nat, n: nat)
    requires min <= stop < max <= |m0| == |m1| && min <= next < max
    requires n <= |ws| && n < max - min - Used(min, max, stop, next)
    requires var piece := if n < max - next then n else max - next;
             forall p :: 0 <= p < |m0| ==>
               m1[p] == if min <= p < min + (n - piece) then ws[piece + (p - min)]
                        else if next <= p < next + piece then ws[p - next] else m0[p]
    ensures forall i :: 0 <= i < n ==> m1[Wrap(min, max, next + i)] == ws[i]
    ensures Ring(m1, min, max, stop, next) == Ring(m0, min, max, stop, next)
  {
    hide Ring;
    RingSame(m0, m1, min, max, stop, next, n);
  }

  /** Words laid behind NEXT_CMD join the ring when NEXT_CMD moves past them. */
  lemma RingAppend(mem: seq<Word>, min: nat, max: nat, stop: nat, next: nat, ws: seq<Word>)
    requires min <= stop < max <= |mem| && min <= next < max && |ws| < max - min - Used(min, max, stop, next)
    requires forall i :: 0 <= i < |ws| ==> mem[Wrap(min, max, next + i)] == ws[i]
    ensures var next' := Wrap(min, max, next + |ws|);
            && Used(min, max, stop, next') == Used(min, max, stop, next) + |ws|
            && Ring(mem, min, max, stop, next') == Ring(mem, min, max, stop, next) + ws
  {
    var used, next' := Used(min, max, stop, next), Wrap(min, max, next + |ws|);
    assert Used(min, max, stop, next') == used + |ws|;
    var r, a := Ring(mem, min, max, stop, next'), Ring(mem, min, max, stop, next) + ws;
    forall i | 0 <= i < |r| ensures r[i] == a[i] {
      if i >= used { assert Wrap(min, max, stop + i) == Wrap(min, max, next + (i - used)); }
    }
  }

  /** What the device reads during a wait, by the k-th look. */
  function Total(takes: seq<nat>, k: nat): (n: nat)
    requires k <= |takes|
  {
    if k == 0 then 0 else Total(takes, k - 1) + takes[k - 1]
  }

  lemma TotalNext(takes: seq<nat>, k: nat)
    requires k < |takes|
    ensures Total(takes, k + 1) == Total(takes, k) + takes[k]
  {
  }

  lemma TotalNone(takes: seq<nat>)
    ensures Total(takes, 0) == 0
  {
  }

  lemma {:induction false} TotalGrows(takes: seq<nat>, j: nat, k: nat)
    requires j <= k <= |takes|
    ensures Total(takes, j) <= Total(takes, k)
  {
    if j < k { TotalGrows(takes, j, k - 1); }
  }

  // ----- The driver's side -----

  datatype Status = Granted | TooLarge | Unaligned | AlreadyReserved | Waiting

  datatype Place = InPlace | Bounce | Full

  class Fifo {
    const mem: array<Word>         // ring and registers; the ring is [min, max)
    const bounce: array<Word>
    const min: nat
    const max: nat
    const reservable: bool         // SVGA_FIFO_CAP_RESERVE
    var next: nat                  // SVGA_FIFO_NEXT_CMD
    var stop: nat                  // SVGA_FIFO_STOP
    var announced: nat             // SVGA_FIFO_RESERVED
    var reserved: nat              // words reserved and not committed
    var bouncing: bool
    ghost var sent: seq<Word>      // every word ever committed
    ghost var taken: seq<Word>     // every word the device has read

    ghost predicate Shape()
      reads `next, `stop
    {
      && min < max <= mem.Length && bounce.Length == BOUNCE_WORDS && mem != bounce
      && min <= next < max && min <= stop < max
    }

    ghost function Content(): (r: seq<Word>)
      requires Shape()
      reads `next, `stop, mem
      ensures |r| == Used(min, max, stop, next)
    {
      Ring(mem[..], min, max, stop, next)
    }

    function Free(): (n: nat)
      requires Shape()
      reads `next, `stop
      ensures 0 < n <= max - min
    {
      max - min - Used(min, max, stop, next)
    }

    /** Words free after a wait in which the device reads what it can of `takes`. */
    function FreeAfter(takes: seq<nat>, k: nat): (n: nat)
      requires Shape() && k <= |takes|
      reads `next, `stop
      ensures Free() <= n <= max - min
    {
      if Free() + Total(takes, k) < max - min then Free() + Total(takes, k) else max - min
    }

    /** The device has read a prefix of what was sent and the rest is in the ring;
        a reservation has room, in one piece unless it goes through the bounce buffer. */
    ghost predicate Valid()
      reads this, mem
    {
      && Shape()
      && sent == taken + Content()
      && (reserved > 0 ==> reserved < Free() && reserved <= BOUNCE_WORDS && (bouncing || next + reserved <= max))
    }

    /** What the caller has written into the reserved space so far. */
    ghost function Draft(): (r: seq<Word>)
      requires Valid()
      reads this, mem, bounce
    {
      if reserved == 0 then [] else if bouncing then bounce[..reserved] else mem[next..next + reserved]
    }

    /** FIFOInit on a FIFO of `size` words with `regs` registers. */
    constructor (regs: nat, size: nat, capReserve: bool)
      requires regs < size
      ensures Valid() && fresh(mem) && fresh(bounce) && reserved == 0 && sent == [] && taken == []
      ensures min == regs && max == size && reservable == capReserve
    {
      mem := new Word[size];
      bounce := new Word[BOUNCE_WORDS];
      min, max, reservable := regs, size, capReserve;
      next, stop, announced := regs, regs, 0;
      reserved, bouncing := 0, false;
      sent, taken := [], [];
    }

    /** The device reads some words.  It may do so at any time. */
    method DeviceReads(k: nat)
      requires Valid() && k <= |Content()|
      modifies `stop, `taken
      ensures Valid() && Draft() == old(Draft())
      ensures taken == old(taken) + old(Content())[..k] && Content() == old(Content())[k..]
    {
      hide Ring, Used, Wrap;
      RingTake(mem[..], min, max, stop, next, k);
      taken := taken + Content()[..k];
      stop := Wrap(min, max, stop + k);
    }

    /** One look at the ring: there is room exactly if more than n words are free. */
    method Look(n: nat) returns (place: Place)
      requires Shape()
      ensures place == Full <==> n >= Free()
      ensures place == InPlace ==> next + n <= max
    {
      if next >= stop {
        if next + n < max || (next + n == max && stop > min) { return InPlace; }
        if (max - next) + (stop - min) <= n { return Full; }
        return Bounce;
      }
      return if next + n < stop then InPlace else Full;
    }

    method Grant(n: nat, place: Place)
      requires Valid() && reserved == 0 && place != Full && n < Free() && n <= BOUNCE_WORDS
      requires place == InPlace ==> next + n <= max
      modifies `announced, `reserved, `bouncing
      ensures Valid() && reserved == n && (reservable && !bouncing ==> announced == n)
    {
      hide Ring, Used;
      reserved := n;
      bouncing := place == Bounce || !(reservable || n <= 1);
      if reservable && !bouncing { announced := n; }
    }

    /** FIFOReserve.  Before each look at STOP the device has read `takes[i]` more
        words; `Waiting` means the call is still in its loop when they are used up. */
    method Reserve(bytes: nat, takes: seq<nat>) returns (status: Status)
      requires Valid()
      modifies `stop, `taken, `announced, `reserved, `bouncing
      ensures Valid() && sent == old(sent) && old(taken) <= taken
      ensures status == TooLarge <==> bytes > 4 * BOUNCE_WORDS || bytes > 4 * (max - min)
      ensures status == Unaligned ==> bytes % 4 != 0
      ensures status == AlreadyReserved ==> bytes % 4 == 0 && old(reserved) > 0
      ensures status in {TooLarge, Unaligned, AlreadyReserved} ==>
                taken == old(taken) && reserved == old(reserved) && Draft() == old(Draft())
      ensures status in {Granted, Waiting} ==> bytes % 4 == 0 && old(reserved) == 0
      ensures status == Granted ==>
                reserved == bytes / 4 < Free() && (reservable && !bouncing ==> announced == reserved)
      ensures status == Waiting ==> reserved == 0
      // granted exactly if the device makes room in time; a command as long as the whole ring never is
      ensures status in {Granted, Waiting} ==>
                (status == Granted <==> takes != [] && bytes / 4 < old(FreeAfter(takes, |takes|)))
      ensures bytes >= 4 * (max - min) ==> status != Granted
    {
      hide Content, Used, Total;
      if bytes > 4 * BOUNCE_WORDS || bytes > 4 * (max - min) { return TooLarge; }
      if bytes % 4 != 0 { return Unaligned; }
      if reserved != 0 { return AlreadyReserved; }
      var n := bytes / 4;
      TotalNone(takes);
      for i := 0 to |takes|
        invariant Valid() && sent == old(sent) && old(taken) <= taken && reserved == 0
        invariant next == old(next) && Free() == old(FreeAfter(takes, i))
        invariant i > 0 ==> n >= Free()
      {
        var unread := Used(min, max, stop, next);
        DeviceReads(if takes[i] <= unread then takes[i] else unread);
        TotalNext(takes, i);
        var place := Look(n);
        if place != Full {
          TotalGrows(takes, i + 1, |takes|);
          Grant(n, place);
          return Granted;
        }
      }
      return Waiting;
    }

    /** The caller fills the space it was given; nothing in flight is touched. */
    method Write(i: nat, w: Word)
      requires Valid() && i < reserved
      modifies mem, bounce
      ensures Valid() && Draft() == old(Draft())[i := w] && Content() == old(Content())
    {
      hide Ring;
      if bouncing {
        bounce[i] := w;
      } else {
        ghost var before := mem[..];
        mem[next + i] := w;
        RingSame(before, mem[..], min, max, stop, next, reserved);
      }
    }

    /** memcpy from the bounce buffer. */
    method CopyIn(at: nat, from: nat, n: nat)
      requires Shape() && at + n <= mem.Length && from + n <= bounce.Length
      modifies mem
      ensures forall p :: 0 <= p < mem.Length ==>
                mem[p] == if at <= p < at + n then bounce[from + (p - at)] else old(mem[p])
    {
      ghost var before := mem[..];
      for i := 0 to n
        invariant forall p :: 0 <= p < mem.Length ==>
                    mem[p] == if at <= p < at + i then bounce[from + (p - at)] else before[p]
      {
        mem[at + i] := bounce[from + i];
      }
    }

    /** Makes words that already lie behind NEXT_CMD visible to the device. */
    method Advance(n: nat, ghost ws: seq<Word>)
      requires Valid() && reserved == 0 && n == |ws| < Free()
      requires forall i :: 0 <= i < n ==> mem[Wrap(min, max, next + i)] == ws[i]
      modifies `next, `sent
      ensures Valid() && sent == old(sent) + ws
    {
      hide Ring, Used;
      RingAppend(mem[..], min, max, stop, next, ws);
      next := next + n;
      if next >= max { next := next - (max - min); }
      sent := sent + ws;
    }

    method CopyPieces(n: nat)
      requires Shape() && n < max - min && n <= BOUNCE_WORDS
      modifies mem
      ensures var piece := if n < max - next then n else max - next;
              forall p :: 0 <= p < mem.Length ==>
                mem[p] == if min <= p < min + (n - piece) then bounce[piece + (p - min)]
                          else if next <= p < next + piece then bounce[p - next] else old(mem[p])
    {
      var piece := if n < max - next then n else max - next;
      CopyIn(next, 0, piece);
      CopyIn(min, piece, n - piece);
    }

    /** The bounce buffer in at most two pieces. */
    method CopyWrapped(n: nat)
      requires Valid() && reserved == 0 && n < Free() && n <= BOUNCE_WORDS
      modifies mem, `announced
      ensures Valid() && forall i :: 0 <= i < n ==> mem[Wrap(min, max, next + i)] == bounce[i]
    {
      hide Ring, Used, Wrap;
      ghost var before := mem[..];
      announced := n;
      CopyPieces(n);
      WrappedCopy(before, mem[..], bounce[..], min, max, stop, next, n);
    }

    /** The bounce buffer word by word; the device may read between any two. */
    method CommitWords(n: nat, takes: seq<nat>)
      requires Valid() && reserved == 0 && n < Free() && n <= BOUNCE_WORDS
      modifies mem, `next, `sent, `stop, `taken
      ensures Valid() && sent == old(sent) + bounce[..n] && old(taken) <= taken
    {
      hide Ring, Used;
      for i := 0 to n
        invariant Valid() && sent == old(sent) + bounce[..i] && old(taken) <= taken
        invariant n - i < Free()
      {
        ghost var before := mem[..];
        mem[next] := bounce[i];
        RingPoke(before, min, max, stop, next, bounce[i]);
        assert mem[..] == before[next := bounce[i]];
        Advance(1, [bounce[i]]);
        if i < |takes| {
          var unread := Used(min, max, stop, next);
          DeviceReads(if takes[i] <= unread then takes[i] else unread);
        }
      }
    }

    /** FIFOCommit: the first `bytes` of the draft follow what was sent before. */
    method Commit(bytes: nat, takes: seq<nat>)
      requires Valid() && (reserved > 0 ==> bytes <= 4 * reserved)
      modifies mem, `next, `sent, `stop, `taken, `announced, `reserved
      ensures Valid() && old(taken) <= taken
      ensures bytes % 4 != 0 || old(reserved) == 0 ==>
                sent == old(sent) && reserved == old(reserved) && Draft() == old(Draft())
      ensures bytes % 4 == 0 && old(reserved) > 0 ==>
                sent == old(sent) + old(Draft())[..bytes / 4] && reserved == 0 && (reservable ==> announced == 0)
    {
      hide Content, Used;
      if bytes % 4 != 0 { return; }
      if reserved == 0 { return; }
      ghost var draft := Draft();
      var n := bytes / 4;
      reserved := 0;
      if bouncing {
        if reservable {
          CopyWrapped(n);
          Advance(n, draft[..n]);
        } else {
          CommitWords(n, takes);
        }
      } else {
        Advance(n, draft[..n]);
      }
      if reservable { announced := 0; }
    }

    method CommitAll(takes: seq<nat>)
      requires Valid()
      modifies mem, `next, `sent, `stop, `taken, `announced, `reserved
      ensures Valid() && old(taken) <= taken && reserved == 0 && sent == old(sent) + old(Draft())
    {
      Commit(4 * reserved, takes);
    }

    /** How every command is sent: reserve, fill, commit.  It goes out whole or not at
        all, and is refused exactly if another one is half written or it is too long. */
    method Send(command: seq<Word>, takes: seq<nat>) returns (status: Status)
      requires Valid()
      modifies this, mem, bounce
      ensures Valid() && old(taken) <= taken
      ensures status !in {Granted, Waiting} <==>
                old(reserved) > 0 || |command| > BOUNCE_WORDS || |command| > max - min
      ensures sent == if status == Granted then old(sent) + command else old(sent)
      ensures reserved == old(reserved)
      ensures status in {Granted, Waiting} ==>
                (status == Granted <==> takes != [] && |command| < old(FreeAfter(takes, |takes|)))
    {
      hide Content, Used, Ring, Total, FreeAfter;
      status := Reserve(4 * |command|, takes);
      if status != Granted { return; }
      Fill(command);
      CommitAll([]);
    }

    /** What is free is what was not sent, or was read. */
    lemma FreeIs()
      requires Valid()
      ensures |taken| <= |sent| && Free() == max - min - (|sent| - |taken|)
    {
      hide Ring;
    }

    method Fill(command: seq<Word>)
      requires Valid() && reserved == |command|
      modifies mem, bounce
      ensures Valid() && Draft() == command
    {
      hide Content, Used, Ring;
      for i := 0 to |command|
        invariant Valid() && Draft()[..i] == command[..i]
      {
        Write(i, command[i]);
      }
      assert Draft()[..reserved] == Draft();
    }
  }
}
