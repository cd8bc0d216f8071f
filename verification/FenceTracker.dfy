/** The ring of fences that keeps presents from running ahead of the device. */
module FenceTrackers {
  import opened Common
  import opened Fences
  import opened Fifos

  /** The fence of the present `back` successful presents ago, 0 if there was none. */
  function Back(history: seq<nat>, back: nat): (f: nat)
    requires back > 0
  {
    if back <= |history| then history[|history| - back] else 0
  }

  /** A ring of N fences; `history` is everything ever passed to `After`. */
  class FenceTracker {
    const fences: array<nat>
    var counter: nat
    ghost var history: seq<nat>

    ghost predicate Valid()
      reads this, fences
    {
      && counter < fences.Length
      && forall back :: 0 < back <= fences.Length ==>
           fences[if back <= counter then counter - back else counter - back + fences.Length] == Back(history, back)
    }

    /** Fields as an uninitialised object has them. */
    constructor (size: nat)
      requires size > 0
      ensures fresh(fences) && fences.Length == size
    {
      fences := new nat[size];
      counter := 0;
      history := [];
    }

    method Init()
      requires fences.Length > 0
      modifies this, fences
      ensures Valid() && history == []
    {
      counter, history := 0, [];
      for k := 0 to fences.Length
        invariant counter == 0 && history == []
        invariant forall j :: 0 <= j < k ==> fences[j] == 0
      {
        fences[k] := 0;
      }
    }

    method Before() returns (fence: nat)
      requires Valid()
      ensures fences.Length > 0 && fence == Back(history, fences.Length)
    {
      fence := fences[counter];
    }

    method After(fence: nat)
      requires Valid()
      modifies this, fences
      ensures Valid() && history == old(history) + [fence]
    {
      ghost var was := history;
      fences[counter] := fence;
      history := history + [fence];
      assert forall back :: 1 < back ==> Back(history, back) == Back(was, back - 1);
      counter := counter + 1;
      if counter == fences.Length { counter := 0; }
    }
  }

  // ----- Presents on a device that works in order -----

  /** `log` holds the fence number of every successful present, `passed` the last
      fence the device has passed, `inserted` the last one inserted by anyone. */
  datatype Presents = Presents(log: seq<nat>, passed: nat, inserted: nat)

  ghost predicate Ordered(s: Presents) {
    && s.passed <= s.inserted
    && (forall i :: 0 <= i < |s.log| ==> 0 < s.log[i] <= s.inserted)
    && (forall i, j :: 0 <= i < j < |s.log| ==> s.log[i] < s.log[j])
  }

  /** Presents the device has not finished. */
  function Outstanding(log: seq<nat>, passed: nat): (n: nat)
    ensures n <= |log|
  {
    if log == [] then 0
    else (if log[|log| - 1] > passed then 1 else 0) + Outstanding(log[..|log| - 1], passed)
  }

  /** In an ordered log the outstanding presents are the last ones. */
  lemma {:induction false} OutstandingAreLast(s: Presents, n: nat)
    requires Ordered(s) && n <= |s.log|
    ensures Outstanding(s.log, s.passed) <= n <==> n == |s.log| || s.log[|s.log| - 1 - n] <= s.passed
    decreases |s.log|
  {
    if |s.log| > 0 {
      var last := |s.log| - 1;
      var t := s.(log := s.log[..last]);
      if s.log[last] <= s.passed {
        OutstandingAreLast(t, 0);
        if n < last { assert s.log[last - n] <= s.log[last]; }
      } else if n > 0 {
        OutstandingAreLast(t, n - 1);
      }
    }
  }

  /** One step: a present (`ok` says whether the command could be reserved; the
      device is at `to` when the wait is over), progress of the device, or a fence
      inserted by some other command. */
  datatype Event = Present(ok: bool, to: nat) | Progress(to: nat) | Insert

  /** What the device and SyncToFence allow with a ring of `size` fences. */
  ghost predicate Possible(s: Presents, e: Event, size: nat)
    requires size > 0
  {
    match e
    case Present(_, to) => s.passed <= to <= s.inserted && Back(s.log, size) <= to
    case Progress(to) => s.passed <= to <= s.inserted
    case Insert => true
  }

  function Next(s: Presents, e: Event): (r: Presents) {
    match e
    case Present(ok, to) =>
      if ok then Presents(s.log + [s.inserted + 1], to, s.inserted + 1) else s.(passed := to)
    case Progress(to) => s.(passed := to)
    case Insert => s.(inserted := s.inserted + 1)
  }

  ghost predicate Bounded(s: Presents, size: nat) {
    Ordered(s) && Outstanding(s.log, s.passed) <= size
  }

  /** The wait makes room for one more present; other steps add none. */
  lemma StepBounded(s: Presents, e: Event, size: nat)
    requires size > 0 && Bounded(s, size) && Possible(s, e, size)
    ensures Bounded(Next(s, e), size)
    ensures e.Present? ==> Outstanding(s.log, e.to) < size
  {
    hide Outstanding, Ordered;
    OrderedNext(s, e);
    match e
    case Present(ok, to) =>
      OrderedNext(s, Progress(to));
      if |s.log| >= size { OutstandingAreLast(s.(passed := to), size - 1); }
      OneMore(s.log, to, s.inserted + 1);
    case Progress(to) => MoreIsNotFewer(s.log, s.passed, to);
    case Insert =>
  }

  lemma OrderedNext(s: Presents, e: Event)
    requires Ordered(s) && (e.Insert? || s.passed <= e.to <= s.inserted)
    ensures Ordered(Next(s, e))
  {
  }

  lemma OneMore(log: seq<nat>, passed: nat, fence: nat)
    ensures Outstanding(log + [fence], passed) == Outstanding(log, passed) + if fence > passed then 1 else 0
  {
    assert (log + [fence])[..|log|] == log;
  }

  lemma {:induction false} MoreIsNotFewer(log: seq<nat>, passed: nat, to: nat)
    requires passed <= to
    ensures Outstanding(log, to) <= Outstanding(log, passed)
  {
    if log != [] { MoreIsNotFewer(log[..|log| - 1], passed, to); }
  }

  ghost predicate PossibleRun(s: Presents, events: seq<Event>, size: nat)
    requires size > 0
    decreases |events|
  {
    events == [] || (Possible(s, events[0], size) && PossibleRun(Next(s, events[0]), events[1..], size))
  }

  function Run(s: Presents, events: seq<Event>): (r: Presents)
    decreases |events|
  {
    if events == [] then s else Run(Next(s, events[0]), events[1..])
  }

  /** Over every run at most N presents are outstanding, however many fail and
      however many fences other commands insert. */
  lemma {:induction false} RunBounded(s: Presents, events: seq<Event>, size: nat)
    requires size > 0 && Bounded(s, size) && PossibleRun(s, events, size)
    ensures Bounded(Run(s, events), size)
    decreases |events|
  {
    hide Bounded, Possible, Next;
    if events != [] {
      StepBounded(s, events[0], size);
      RunBounded(Next(s, events[0]), events[1..], size);
    }
  }

  /** `n` presents in a row that find the device standing still. */
  function Burst(n: nat): (events: seq<Event>)
    ensures |events| == n
  {
    if n == 0 then [] else [Present(true, 0)] + Burst(n - 1)
  }

  /** The bound is reached: a ring of N fences lets N presents through unchecked. */
  lemma {:induction false} BurstReachesBound(log: seq<nat>, n: nat, size: nat)
    requires |log| + n <= size && size > 0 && Outstanding(log, 0) == |log|
    ensures var s := Presents(log, 0, |log|);
            PossibleRun(s, Burst(n), size) && Outstanding(Run(s, Burst(n)).log, 0) == |log| + n
    decreases n
  {
    if n > 0 {
      OneMore(log, 0, |log| + 1);
      BurstReachesBound(log + [|log| + 1], n - 1, size);
      assert Burst(n)[1..] == Burst(n - 1);
    }
  }

  // ----- surfacePresentAutoSync -----

  /** The fence read from the ring is the one of the present it stands for. */
  lemma BackStored(s: Presents, history: seq<nat>, size: nat, hasFence: bool)
    requires size > 0 && Bounded(s, size) && |history| == |s.log|
    requires forall i :: 0 <= i < |s.log| ==> history[i] == Stored(s.log[i], hasFence)
    ensures Back(history, size) == Stored(Back(s.log, size), hasFence) && Back(s.log, size) <= s.inserted
    ensures s.passed <= s.inserted
  {
    hide Outstanding, Rep;
  }

  lemma BackZeroIff(s: Presents, size: nat)
    requires size > 0 && Bounded(s, size)
    ensures Back(s.log, size) == 0 <==> |s.log| < size
  {
    hide Outstanding;
  }

  lemma LookAt(polls: seq<Poll>, inserted: nat, k: nat)
    requires Trace(polls, inserted) && k < |polls|
    ensures polls[k].passed <= inserted
  {
  }

  datatype Outcome = Success | BadArgument | NoDevice | WaitingForFence | WaitingForRoom

  const CMD_PRESENT: Word := 1058

  /** The present command: identifier, size of what follows, surface and rectangles. */
  function PresentCommand(sid: Word, rects: seq<Word>): (c: seq<Word>)
    ensures |c| == 3 + |rects|
  {
    [CMD_PRESENT, (4 + 4 * |rects|) % 0x1_0000_0000, sid] + rects
  }

  datatype Command = Command(id: Word, payload: seq<Word>, rest: seq<Word>)

  /** How the device takes the next 3D command off the stream: identifier, size in
      bytes, and that much payload. */
  function ReadCommand(ws: seq<Word>): (r: Option<Command>) {
    if |ws| < 2 || ws[1] % 4 != 0 || |ws| < 2 + ws[1] / 4 then None
    else Some(Command(ws[0], ws[2..2 + ws[1] / 4], ws[2 + ws[1] / 4..]))
  }

  /** Whatever follows, the device reads back the surface and the rectangles of any
      present short enough for the FIFO. */
  lemma PresentRoundTrip(sid: Word, rects: seq<Word>, rest: seq<Word>)
    requires 3 + |rects| <= BOUNCE_WORDS
    ensures ReadCommand(PresentCommand(sid, rects) + rest) == Some(Command(CMD_PRESENT, [sid] + rects, rest))
  {
    var ws := PresentCommand(sid, rects) + rest;
    assert ws[1] == 4 + 4 * |rects|;
    assert ws[2..3 + |rects|] == [sid] + rects && ws[3 + |rects|..] == rest;
  }

  class Presenter {
    const tracker: FenceTracker
    const counter: FenceCounter
    const fifo: Fifo
    ghost var log: seq<nat>
    ghost var passed: nat

    ghost function State(): (s: Presents)
      reads this, counter
    {
      Presents(log, passed, counter.inserted)
    }

    /** The ring holds what InsertFence returned for the presents of the log, and no
        command is left half written. */
    ghost predicate Valid()
      reads this, tracker, tracker.fences, counter, fifo, fifo.mem
    {
      && tracker.fences as object != fifo.mem && tracker.fences as object != fifo.bounce
      && tracker.fences.Length > 0 && tracker.Valid() && counter.Valid() && fifo.Valid() && fifo.reserved == 0
      && Bounded(State(), tracker.fences.Length)
      && |tracker.history| == |log|
      && forall i :: 0 <= i < |log| ==> tracker.history[i] == Stored(log[i], counter.hasFence)
    }

    constructor (size: nat, hasFence: bool, regs: nat, fifoSize: nat, capReserve: bool)
      requires size > 0 && regs < fifoSize
      ensures Valid() && log == [] && tracker.fences.Length == size && fifo.sent == []
      ensures fresh(tracker) && fresh(tracker.fences) && fresh(counter) && fresh(fifo) && fresh(fifo.mem)
          && fresh(fifo.bounce)
    {
      var t := new FenceTracker(size);
      t.Init();
      var c := new FenceCounter(hasFence);
      var f := new Fifo(regs, fifoSize, capReserve);
      tracker, counter, fifo := t, c, f;
      log, passed := [], 0;
    }

    /** Waits until the present N calls back has been finished. */
    method AwaitTurn(polls: seq<Poll>) returns (done: bool)
      requires Valid() && Trace(polls, counter.inserted)
      requires forall k :: 0 <= k < |polls| ==> passed <= polls[k].passed
      modifies `passed
      ensures Valid() && (!done ==> passed == old(passed))
      ensures done ==> Possible(old(State()), Present(true, passed), tracker.fences.Length)
      ensures !done ==> forall j: nat :: IdleFrom(polls, j) ==> j + 4 > |polls|
      ensures |log| < tracker.fences.Length ==> done && passed == old(passed)
      ensures counter.hasFence && |polls| > 0 && |log| >= tracker.fences.Length ==>
                0 <= polls[0].passed - Back(log, tracker.fences.Length) < 0x7FFF_FFFF ==>
                  done && passed == polls[0].passed
    {
      hide Bounded, IdleFrom, FenceTracker.Valid, FenceCounter.Valid, Fifo.Valid, Trace, Stored, Back;
      var fence := tracker.Before();
      ghost var f := Back(log, tracker.fences.Length);
      BackStored(State(), tracker.history, tracker.fences.Length, counter.hasFence);
      BackZeroIff(State(), tracker.fences.Length);
      var n, warned;
      done, n, warned := SyncToFence(fence, counter.hasFence, polls, f, counter.inserted);
      if !done { return; }
      if n > 0 { LookAt(polls, counter.inserted, n - 1); }
      ghost var before, to := State(), if n == 0 then passed else polls[n - 1].passed;
      StepBounded(before, Present(false, to), tracker.fences.Length);
      passed := to;
    }

    /** The words of one present that made it into the FIFO. */
    ghost function Words(sid: Word, rects: seq<Word>): (r: seq<Word>)
      reads counter
    {
      PresentCommand(sid, rects) + if counter.hasFence then [CMD_FENCE, Stored(counter.inserted, true)] else []
    }

    /** Whether a present of this length can be sent at all. */
    predicate Fits(rects: seq<Word>) {
      3 + |rects| <= BOUNCE_WORDS && 3 + |rects| <= fifo.max - fifo.min
    }

    /** Sends the command and its fence and remembers the fence. */
    method SendPresent(sid: Word, rects: seq<Word>, takes: seq<nat>) returns (status: Outcome)
      requires Valid() && Possible(State(), Present(true, passed), tracker.fences.Length)
      modifies `log, tracker, tracker.fences, counter, fifo, fifo.mem, fifo.bounce
      ensures Valid() && status in {Success, WaitingForRoom}
      ensures status == WaitingForRoom ==> Fits(rects) && (takes == [] || 5 + |rects| >= old(fifo.Free()))
      ensures status == WaitingForRoom ==>
                log == old(log) && fifo.sent in {old(fifo.sent), old(fifo.sent) + PresentCommand(sid, rects)}
      ensures status == Success ==>
                var sent := |log| > |old(log)|;
                && (sent <==> Fits(rects))
                && State() == Next(old(State()), Present(sent, passed))
                && fifo.sent == if sent then old(fifo.sent) + Words(sid, rects) else old(fifo.sent)
    {
      hide Bounded, FenceTracker.Valid, FenceCounter.Valid, Fifo.Valid, Stored, PresentCommand, Fifo.FreeAfter;
      StepBounded(State(), Present(true, passed), tracker.fences.Length);
      StepBounded(State(), Event.Insert, tracker.fences.Length);
      fifo.FreeIs();
      var room := fifo.Send(PresentCommand(sid, rects), takes);
      fifo.FreeIs();
      if room == Waiting { return WaitingForRoom; }
      if room != Granted { return Success; }
      var fence;
      room, fence := counter.Insert(fifo, takes);
      if room == Waiting { return WaitingForRoom; }
      tracker.After(fence);
      log := log + [counter.inserted];
      return Success;
    }

    /** One present.  `polls` is what the device shows while the driver waits for a
        fence, and `takes` what it reads while the driver waits for room; if they end
        before the wait does, the call has not come back. */
    method PresentAutoSync(hasExtra: bool, has3D: bool, sid: Word, rects: seq<Word>, polls: seq<Poll>, takes: seq<nat>)
      returns (status: Outcome)
      requires Valid() && Trace(polls, counter.inserted)
      requires forall k :: 0 <= k < |polls| ==> passed <= polls[k].passed
      modifies this, tracker, tracker.fences, counter, fifo, fifo.mem, fifo.bounce
      ensures Valid()
      ensures !hasExtra ==> status == BadArgument
      ensures hasExtra && !has3D ==> status == NoDevice
      ensures status in {BadArgument, NoDevice, WaitingForFence} ==>
                State() == old(State()) && fifo.sent == old(fifo.sent)
      ensures hasExtra && has3D ==> status in {Success, WaitingForFence, WaitingForRoom}
      ensures status == WaitingForFence ==> |log| >= tracker.fences.Length
      ensures status == WaitingForRoom ==> Fits(rects) && (takes == [] || 5 + |rects| >= old(fifo.Free()))
      ensures status == WaitingForFence ==> forall j: nat :: IdleFrom(polls, j) ==> j + 4 > |polls|
      ensures status == WaitingForRoom ==>
                log == old(log) && fifo.sent in {old(fifo.sent), old(fifo.sent) + PresentCommand(sid, rects)}
      ensures status == Success ==>
                var sent := |log| > |old(log)|;
                var e := Present(sent, passed);
                && (sent <==> Fits(rects))
                && Possible(old(State()), e, tracker.fences.Length) && State() == Next(old(State()), e)
                && fifo.sent == if sent then old(fifo.sent) + Words(sid, rects) else old(fifo.sent)
    {
      hide Valid, IdleFrom, Trace, Stored, Back, PresentCommand, Words;
      if !hasExtra { return BadArgument; }
      if !has3D { return NoDevice; }
      var done := AwaitTurn(polls);
      if !done { return WaitingForFence; }
      status := SendPresent(sid, rects, takes);
    }
  }
}
