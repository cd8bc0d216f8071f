/** Transfer buffers: memory that is wired and described to the device under a
    GMR ID from prepare to complete. */
module TransferBuffers {
  import opened Common
  import opened IdPool

  datatype Status = Success | NotReady | NoResources | WiringFailed | CreateFailed

  /** A buffer: its memory descriptor, GMR ID (negative if none) and the fence of
      the last transfer (0 if none). */
  datatype Buffer = Buffer(md: Option<nat>, gmr: int, fence: nat)

  /** What the buffers share.  `defined` maps the GMRs the device knows to the
      memory behind them, `wired` counts prepared memory descriptors, `busy` maps
      GMRs to the fence of a transfer not known to have passed, and `torn` are
      GMRs destroyed while busy. */
  datatype Device = Device(ids: Ids, defined: map<nat, nat>, wired: multiset<nat>, busy: map<nat, nat>, torn: set<nat>)

  datatype Outcome = Outcome(dev: Device, buf: Buffer, status: Status)

  // ----- One call, on values -----

  /** prepare; `mdOk` and `gmrOk` say how wiring the memory and createGMR turn out. */
  function PrepareStep(dev: Device, buf: Buffer, mdOk: bool, gmrOk: bool): (r: Outcome) {
    if buf.gmr >= 0 then Outcome(dev, buf, Success)
    else if buf.md.None? then Outcome(dev, buf, NotReady)
    else
      var k := FirstFree(dev.ids.used, 0, dev.ids.capacity);
      if k == dev.ids.capacity then Outcome(dev, buf.(gmr := -1), NoResources)
      else
        var dev1 := dev.(ids := AfterAlloc(dev.ids));
        if !mdOk || !gmrOk then
          var error := if mdOk then CreateFailed else WiringFailed;
          Outcome(dev1.(ids := AfterFree(dev1.ids, k)), buf.(gmr := -1), error)
        else
          var dev2 := dev1.(wired := dev1.wired + multiset{buf.md.value}, defined := dev1.defined[k := buf.md.value]);
          Outcome(dev2, buf.(gmr := k), Success)
  }

  /** sync: waiting for a fence means the transfers it guards have passed. */
  function SyncStep(dev: Device, buf: Buffer): (r: Outcome) {
    if buf.fence == 0 then Outcome(dev, buf, Success)
    else
      var passed := set id | id in dev.busy && dev.busy[id] == buf.fence;
      Outcome(dev.(busy := dev.busy - passed), buf.(fence := 0), Success)
  }

  /** Gives up a GMR: destroys it, unwires the memory, returns the ID. */
  function ReleaseStep(dev: Device, buf: Buffer): (r: Outcome)
    requires buf.gmr >= 0
  {
    var id := buf.gmr as nat;
    var dev1 := dev.(
      defined := dev.defined - {id},
      torn := if id in dev.busy then dev.torn + {id} else dev.torn,
      wired := if buf.md.Some? then dev.wired - multiset{buf.md.value} else dev.wired,
      ids := AfterFree(dev.ids, id));
    Outcome(dev1, buf.(gmr := -1), Success)
  }

  function CompleteStep(dev: Device, buf: Buffer): (r: Outcome) {
    var o := SyncStep(dev, buf);
    if o.buf.gmr < 0 then o else ReleaseStep(o.dev, o.buf)
  }

  // ----- The code -----

  class Provider {
    const gmrIds: Pool
    ghost var defined: map<nat, nat>
    ghost var wired: multiset<nat>
    ghost var busy: map<nat, nat>
    ghost var torn: set<nat>

    constructor (maxGmrIds: nat)
      ensures gmrIds.Valid() && fresh(gmrIds) && fresh(gmrIds.mask)
      ensures State() == Device(Ids(128, IdRange(maxGmrIds, 128), 0), map[], multiset{}, map[], {})
    {
      var pool := new Pool(2);
      pool.Reserve(maxGmrIds);
      gmrIds := pool;
      defined, wired, busy, torn := map[], multiset{}, map[], {};
    }

    ghost function State(): (d: Device)
      reads this, gmrIds, gmrIds.mask
    {
      Device(gmrIds.State(), defined, wired, busy, torn)
    }

    method AllocGMRID() returns (r: int)
      requires gmrIds.Valid()
      modifies gmrIds, gmrIds.mask
      ensures gmrIds.Valid()
      ensures var was := old(State());
              var k := FirstFree(was.ids.used, 0, was.ids.capacity);
              if k == was.ids.capacity then r == -1 && State() == was
              else r == k && State() == was.(ids := AfterAlloc(was.ids))
    {
      hide Pool.Valid, Pool.State, AfterAlloc, FirstFree;
      r := gmrIds.AllocGMRID();
    }

    method CreateGMR(id: nat, md: nat)
      modifies `defined
      ensures State() == old(State()).(defined := old(State()).defined[id := md])
    {
      defined := defined[id := md];
    }

    method Wire(md: nat)
      modifies `wired
      ensures State() == old(State()).(wired := old(State()).wired + multiset{md})
    {
      wired := wired + multiset{md};
    }

    method DestroyGMR(id: nat)
      modifies `defined, `torn
      ensures var was := old(State());
              State() == was.(defined := was.defined - {id},
                              torn := if id in was.busy then was.torn + {id} else was.torn)
    {
      torn := if id in busy then torn + {id} else torn;
      defined := defined - {id};
    }

    method FreeGMRID(id: nat)
      requires gmrIds.Valid()
      modifies gmrIds, gmrIds.mask
      ensures gmrIds.Valid() && State() == old(State()).(ids := AfterFree(old(State()).ids, id))
    {
      hide Pool.Valid, Pool.State, AfterFree;
      gmrIds.FreeID(id);
    }

    method Unwire(md: nat)
      modifies `wired
      ensures State() == old(State()).(wired := old(State()).wired - multiset{md})
    {
      wired := wired - multiset{md};
    }
  }

  function Described(d: Device, id: nat, md: nat): (r: Device) {
    d.(wired := d.wired + multiset{md}, defined := d.defined[id := md])
  }

  function Undescribed(d: Device, id: nat): (r: Device) {
    d.(ids := AfterFree(d.ids, id))
  }

  lemma DescribedIs(d: Device, id: nat, md: nat)
    ensures var d1 := d.(wired := d.wired + multiset{md});
            d1.(defined := d1.defined[id := md]) == Described(d, id, md)
  {
  }

  lemma WireUnwire(d: Device, md: nat)
    ensures d.(wired := d.wired + multiset{md}).(wired := d.wired + multiset{md} - multiset{md}) == d
  {
    assert d.wired + multiset{md} - multiset{md} == d.wired;
  }

  class TransferBuffer {
    var md: Option<nat>
    var gmrId: int
    var fence: nat

    function Value(): (b: Buffer)
      reads this
    {
      Buffer(md, gmrId, fence)
    }

    method Init()
      modifies `gmrId
      ensures Value() == old(Value()).(gmr := -1)
    {
      gmrId := -1;
    }

    method Prepare(provider: Provider?, mdOk: bool, gmrOk: bool) returns (status: Status)
      requires provider != null ==> provider.gmrIds.Valid()
      modifies this, provider, if provider == null then {} else {provider.gmrIds, provider.gmrIds.mask as object}
      ensures provider == null ==> status == NotReady && Value() == old(Value())
      ensures provider != null ==>
                && provider.gmrIds.Valid()
                && Outcome(provider.State(), Value(), status)
                   == PrepareStep(old(provider.State()), old(Value()), mdOk, gmrOk)
                && (status == Success <==> gmrId >= 0)
    {
      hide Pool.Valid, Provider.State, AfterFree, AfterAlloc, FirstFree;
      if provider == null { return NotReady; }
      if gmrId >= 0 { return Success; }
      if md.None? { return NotReady; }
      gmrId := provider.AllocGMRID();
      if gmrId < 0 { return NoResources; }
      status := Describe(provider, mdOk, gmrOk);
    }

    /** The part of prepare that wires the memory and describes it to the device, with
        the clean-up when either fails. */
    method Describe(provider: Provider, mdOk: bool, gmrOk: bool) returns (status: Status)
      requires provider.gmrIds.Valid() && gmrId >= 0 && md.Some?
      modifies this, provider, provider.gmrIds, provider.gmrIds.mask
      ensures provider.gmrIds.Valid() && md == old(md) && fence == old(fence)
      ensures status == if !mdOk then WiringFailed else if !gmrOk then CreateFailed else Success
      ensures status == Success ==>
                gmrId == old(gmrId) && provider.State() == Described(old(provider.State()), old(gmrId), md.value)
      ensures status != Success ==>
                gmrId == -1 && provider.State() == Undescribed(old(provider.State()), old(gmrId))
    {
      hide Pool.Valid, Provider.State, AfterFree, Described, Undescribed;
      ghost var was := provider.State();
      if !mdOk {
        DropID(provider);
        return WiringFailed;
      }
      provider.Wire(md.value);
      if !gmrOk {
        provider.Unwire(md.value);
        WireUnwire(was, md.value);
        DropID(provider);
        return CreateFailed;
      }
      provider.CreateGMR(gmrId, md.value);
      DescribedIs(was, gmrId, md.value);
      status := Success;
    }

    method DropID(provider: Provider)
      requires provider.gmrIds.Valid() && gmrId >= 0
      modifies `gmrId, provider.gmrIds, provider.gmrIds.mask
      ensures provider.gmrIds.Valid() && gmrId == -1
      ensures provider.State() == Undescribed(old(provider.State()), old(gmrId))
    {
      hide Pool.Valid, Provider.State, AfterFree;
      provider.FreeGMRID(gmrId);
      gmrId := -1;
    }

    method Sync(provider: Provider?)
      modifies `fence, provider
      ensures provider == null ==> Value() == old(Value())
      ensures provider != null ==>
                && fence == 0
                && Outcome(provider.State(), Value(), Success) == SyncStep(old(provider.State()), old(Value()))
    {
      if provider == null || fence == 0 { return; }
      ghost var passed := set id | id in provider.busy && provider.busy[id] == fence;
      provider.busy := provider.busy - passed;
      fence := 0;
    }

    method Complete(provider: Provider?)
      requires provider != null ==> provider.gmrIds.Valid()
      modifies this, provider, if provider == null then {} else {provider.gmrIds, provider.gmrIds.mask as object}
      ensures provider == null ==> Value() == old(Value())
      ensures provider != null ==>
                && provider.gmrIds.Valid()
                && fence == 0 && gmrId < 0
                && Outcome(provider.State(), Value(), Success) == CompleteStep(old(provider.State()), old(Value()))
    {
      hide Pool.Valid, Pool.State, ReleaseStep;
      Sync(provider);
      if provider == null || gmrId < 0 { return; }
      Release(provider);
    }

    method Release(provider: Provider)
      requires provider.gmrIds.Valid() && gmrId >= 0
      modifies this, provider, provider.gmrIds, provider.gmrIds.mask
      ensures provider.gmrIds.Valid() && gmrId < 0 && fence == old(fence)
      ensures Outcome(provider.State(), Value(), Success) == ReleaseStep(old(provider.State()), old(Value()))
    {
      hide Pool.Valid, Provider.State, AfterFree;
      provider.DestroyGMR(gmrId);
      if md.Some? { provider.Unwire(md.value); }
      provider.FreeGMRID(gmrId);
      gmrId := -1;
    }

    method Discard()
      modifies `md
      ensures Value() == old(Value()).(md := None)
    {
      md := None;
    }
  }

  // ----- Many buffers, one provider -----

  datatype System = System(dev: Device, buffers: seq<Buffer>)

  datatype Call =
    | Prepare(i: nat, mdOk: bool, gmrOk: bool)
    | Transfer(i: nat, fence: nat)               // a transfer that uses the GMR; leaves its fence in the buffer
    | Sync(i: nat)
    | Complete(i: nat)
    | Discard(i: nat)
    | Attach(i: nat, md: nat)                    // new memory for a buffer

  /** What the owners of the buffers keep to: a prepared buffer is neither
      discarded nor given other memory, and transfers use prepared buffers. */
  predicate Legal(s: System, c: Call) {
    c.i < |s.buffers| &&
    match c
    case Prepare(_, _, _) => true
    case Transfer(i, fence) => s.buffers[i].gmr >= 0 && fence != 0
    case Sync(_) => true
    case Complete(_) => true
    case Discard(i) => s.buffers[i].gmr < 0
    case Attach(i, _) => s.buffers[i].gmr < 0
  }

  function Put(s: System, i: nat, o: Outcome): (r: System)
    requires i < |s.buffers|
  {
    System(o.dev, s.buffers[i := o.buf])
  }

  function Step(s: System, c: Call): (r: System)
    requires c.i < |s.buffers|
  {
    var b := s.buffers[c.i];
    match c
    case Prepare(i, mdOk, gmrOk) => Put(s, i, PrepareStep(s.dev, b, mdOk, gmrOk))
    case Transfer(i, fence) =>
      var dev := if b.gmr >= 0 then s.dev.(busy := s.dev.busy[b.gmr as nat := fence]) else s.dev;
      Put(s, i, Outcome(dev, b.(fence := fence), Success))
    case Sync(i) => Put(s, i, SyncStep(s.dev, b))
    case Complete(i) => Put(s, i, CompleteStep(s.dev, b))
    case Discard(i) => Put(s, i, Outcome(s.dev, b.(md := None), Success))
    case Attach(i, md) => Put(s, i, Outcome(s.dev, b.(md := Some(md)), Success))
  }

  /** The memory of prepared buffers, with multiplicity. */
  function Wired(buffers: seq<Buffer>, n: nat): (r: multiset<nat>)
    requires n <= |buffers|
  {
    if n == 0 then multiset{} else Wired(buffers, n - 1) + WiredBy(buffers[n - 1])
  }

  function WiredBy(b: Buffer): (r: multiset<nat>) {
    if b.gmr >= 0 && b.md.Some? then multiset{b.md.value} else multiset{}
  }

  ghost predicate Holder(buffers: seq<Buffer>, id: nat) {
    exists i :: 0 <= i < |buffers| && buffers[i].gmr == id
  }

  /** No two buffers hold the same GMR ID. */
  ghost predicate Exclusive(buffers: seq<Buffer>) {
    forall i, j :: 0 <= i < j < |buffers| && buffers[i].gmr >= 0 ==> buffers[i].gmr != buffers[j].gmr
  }

  /** A held ID exists on the device and is defined for the buffer's memory; a
      transfer that may still be using it left its fence in the buffer. */
  ghost predicate BufferOk(dev: Device, b: Buffer, max: nat) {
    b.gmr >= 0 ==>
      && b.gmr < max && b.gmr < dev.ids.capacity && b.gmr in dev.ids.used && b.md.Some?
      && b.gmr in dev.defined && dev.defined[b.gmr] == b.md.value
      && (b.gmr in dev.busy ==> dev.busy[b.gmr] == b.fence && b.fence != 0)
  }

  ghost predicate BuffersOk(dev: Device, buffers: seq<Buffer>, max: nat) {
    forall i :: 0 <= i < |buffers| ==> BufferOk(dev, buffers[i], max)
  }

  /** What is taken, defined or busy is held by some buffer; IDs the device does
      not have are never free. */
  ghost predicate NoLeaks(dev: Device, buffers: seq<Buffer>, max: nat) {
    && (forall id: nat :: id in dev.ids.used ==> id < dev.ids.capacity && (id < max ==> Holder(buffers, id)))
    && (forall id: nat :: max <= id < dev.ids.capacity ==> id in dev.ids.used)
    && (forall id: nat :: id in dev.defined ==> Holder(buffers, id))
    && (forall id: nat :: id in dev.busy ==> Holder(buffers, id))
  }

  /** No sharing, no leaks, exactly the memory of prepared buffers is wired, and
      no GMR was destroyed under a transfer. */
  ghost predicate Safe(s: System, max: nat) {
    && Exclusive(s.buffers)
    && BuffersOk(s.dev, s.buffers, max)
    && NoLeaks(s.dev, s.buffers, max)
    && s.dev.wired == Wired(s.buffers, |s.buffers|)
    && s.dev.torn == {}
  }

  lemma {:induction false} WiredSame(buffers: seq<Buffer>, n: nat, i: nat, b: Buffer)
    requires n <= i < |buffers|
    ensures Wired(buffers[i := b], n) == Wired(buffers, n)
  {
    if n > 0 { WiredSame(buffers, n - 1, i, b); }
  }

  lemma Exchange(from: multiset<nat>, to: multiset<nat>, out: multiset<nat>, into: multiset<nat>)
    requires out <= from && to + out == from + into
    ensures to == from - out + into
  {
    assert to == (to + out) - out;
  }

  /** Replacing one buffer replaces its share of the wired memory. */
  lemma {:induction false} WiredUpdate(buffers: seq<Buffer>, n: nat, i: nat, b: Buffer)
    requires i < n <= |buffers|
    ensures WiredBy(buffers[i]) <= Wired(buffers, n)
    ensures Wired(buffers[i := b], n) == Wired(buffers, n) - WiredBy(buffers[i]) + WiredBy(b)
  {
    hide WiredBy;
    var before, last := Wired(buffers, n - 1), WiredBy(buffers[n - 1]);
    if i < n - 1 {
      WiredUpdate(buffers, n - 1, i, b);
      Exchange(before + last, before - WiredBy(buffers[i]) + WiredBy(b) + last, WiredBy(buffers[i]), WiredBy(b));
    } else {
      WiredSame(buffers, n - 1, i, b);
      Exchange(before + last, before + WiredBy(b), last, WiredBy(b));
    }
  }

  /** Who holds what after buffer i has been replaced. */
  lemma HolderUpdate(buffers: seq<Buffer>, i: nat, b: Buffer, id: nat)
    requires Exclusive(buffers) && i < |buffers|
    ensures Holder(buffers[i := b], id) <==> b.gmr == id || (Holder(buffers, id) && buffers[i].gmr != id)
  {
    var r := buffers[i := b];
    if b.gmr == id { assert r[i].gmr == id; }
    if Holder(buffers, id) && buffers[i].gmr != id {
      var j :| 0 <= j < |buffers| && buffers[j].gmr == id;
      assert r[j].gmr == id;
    }
    if Holder(r, id) && b.gmr != id {
      var j :| 0 <= j < |r| && r[j].gmr == id;
      assert buffers[j].gmr == id;
    }
  }

  lemma ExclusiveUpdate(buffers: seq<Buffer>, i: nat, b: Buffer)
    requires Exclusive(buffers) && i < |buffers|
    requires b.gmr < 0 || b.gmr == buffers[i].gmr || !Holder(buffers, b.gmr)
    ensures Exclusive(buffers[i := b])
  {
    assert forall j :: 0 <= j < |buffers| && buffers[j].gmr >= 0 ==> Holder(buffers, buffers[j].gmr);
  }

  /** The device changed only about IDs that buffer i holds now or held before. */
  ghost predicate OnlyAbout(dev: Device, dev': Device, was: int, now: int) {
    && dev'.ids.capacity == dev.ids.capacity
    && forall id: nat :: id != was && id != now ==>
         && (id in dev'.ids.used <==> id in dev.ids.used)
         && (id in dev'.defined <==> id in dev.defined)
         && (id in dev.defined ==> id in dev'.defined && dev'.defined[id] == dev.defined[id])
         && (id in dev'.busy ==> id in dev.busy && dev'.busy[id] == dev.busy[id])
  }

  /** Replacing buffer i is safe if the device agrees about the ID it gives up
      and the one it holds from now on. */
  lemma SafeReplace(s: System, dev: Device, i: nat, b: Buffer, max: nat)
    requires Safe(s, max) && i < |s.buffers| && OnlyAbout(s.dev, dev, s.buffers[i].gmr, b.gmr)
    requires b.gmr < 0 || b.gmr == s.buffers[i].gmr || !Holder(s.buffers, b.gmr)
    requires BufferOk(dev, b, max)
    requires s.buffers[i].gmr >= 0 && s.buffers[i].gmr != b.gmr ==>
               s.buffers[i].gmr !in dev.ids.used && s.buffers[i].gmr !in dev.defined && s.buffers[i].gmr !in dev.busy
    requires dev.wired + WiredBy(s.buffers[i]) == s.dev.wired + WiredBy(b) && dev.torn == {}
    ensures Safe(System(dev, s.buffers[i := b]), max)
  {
    hide Exclusive, BuffersOk, NoLeaks, Wired, WiredBy, BufferOk, OnlyAbout;
    ExclusiveUpdate(s.buffers, i, b);
    WiredUpdate(s.buffers, |s.buffers|, i, b);
    Exchange(s.dev.wired, dev.wired, WiredBy(s.buffers[i]), WiredBy(b));
    SafeBuffers(s, dev, i, b, max);
    SafeHolders(s, dev, i, b, max);
  }

  lemma SafeBuffers(s: System, dev: Device, i: nat, b: Buffer, max: nat)
    requires Exclusive(s.buffers) && BuffersOk(s.dev, s.buffers, max)
    requires i < |s.buffers| && OnlyAbout(s.dev, dev, s.buffers[i].gmr, b.gmr) && BufferOk(dev, b, max)
    requires b.gmr < 0 || b.gmr == s.buffers[i].gmr || !Holder(s.buffers, b.gmr)
    ensures BuffersOk(dev, s.buffers[i := b], max)
  {
    var r := s.buffers[i := b];
    assert forall j :: 0 <= j < |s.buffers| && s.buffers[j].gmr >= 0 ==> Holder(s.buffers, s.buffers[j].gmr);
    hide Holder;
    forall j | 0 <= j < |r| ensures BufferOk(dev, r[j], max) {
      if j != i { assert BufferOk(s.dev, s.buffers[j], max); }
    }
  }

  lemma SafeHolders(s: System, dev: Device, i: nat, b: Buffer, max: nat)
    requires Exclusive(s.buffers) && NoLeaks(s.dev, s.buffers, max) && BuffersOk(s.dev, s.buffers, max)
    requires i < |s.buffers| && OnlyAbout(s.dev, dev, s.buffers[i].gmr, b.gmr) && BufferOk(dev, b, max)
    requires s.buffers[i].gmr >= 0 && s.buffers[i].gmr != b.gmr ==>
               s.buffers[i].gmr !in dev.ids.used && s.buffers[i].gmr !in dev.defined && s.buffers[i].gmr !in dev.busy
    ensures NoLeaks(dev, s.buffers[i := b], max)
  {
    var r := s.buffers[i := b];
    assert BufferOk(s.dev, s.buffers[i], max);
    forall id: nat ensures Holder(r, id) <==> b.gmr == id || (Holder(s.buffers, id) && s.buffers[i].gmr != id) {
      HolderUpdate(s.buffers, i, b, id);
    }
    hide Holder, Exclusive, BuffersOk;
  }

  /** A free ID belongs to nobody and is below the device limit. */
  lemma FreshId(s: System, max: nat)
    requires Safe(s, max)
    ensures var k := FirstFree(s.dev.ids.used, 0, s.dev.ids.capacity);
            k < s.dev.ids.capacity ==>
              k < max && !Holder(s.buffers, k) && k !in s.dev.ids.used && k !in s.dev.defined && k !in s.dev.busy
  {
    var k := FirstFree(s.dev.ids.used, 0, s.dev.ids.capacity);
    if k < s.dev.ids.capacity {
      forall i | 0 <= i < |s.buffers| ensures s.buffers[i].gmr != k {
        assert BufferOk(s.dev, s.buffers[i], max);
      }
    }
  }

  lemma SafePrepare(s: System, i: nat, mdOk: bool, gmrOk: bool, max: nat)
    requires Safe(s, max) && i < |s.buffers|
    ensures Safe(Step(s, Prepare(i, mdOk, gmrOk)), max)
  {
    hide FirstFree, Wired, Exclusive, BuffersOk, NoLeaks, Holder;
    var b := s.buffers[i];
    var o := PrepareStep(s.dev, b, mdOk, gmrOk);
    FreshId(s, max);
    BufferOkAt(s.dev, s.buffers, i, max);
    SafeReplace(s, o.dev, i, o.buf, max);
  }

  lemma BufferOkAt(dev: Device, buffers: seq<Buffer>, i: nat, max: nat)
    requires BuffersOk(dev, buffers, max) && i < |buffers|
    ensures BufferOk(dev, buffers[i], max)
  {
  }

  lemma SafeSync(s: System, i: nat, max: nat)
    requires Safe(s, max) && i < |s.buffers|
    ensures Safe(Step(s, Sync(i)), max)
  {
    hide Wired, Exclusive, BuffersOk, NoLeaks, Holder;
    var b := s.buffers[i];
    var o := SyncStep(s.dev, b);
    BufferOkAt(s.dev, s.buffers, i, max);
    SafeReplace(s, o.dev, i, o.buf, max);
  }

  lemma SafeTransfer(s: System, i: nat, fence: nat, max: nat)
    requires Safe(s, max) && Legal(s, Transfer(i, fence))
    ensures Safe(Step(s, Transfer(i, fence)), max)
  {
    hide Wired, Exclusive, BuffersOk, NoLeaks, Holder;
    var r := Step(s, Transfer(i, fence));
    BufferOkAt(s.dev, s.buffers, i, max);
    SafeReplace(s, r.dev, i, r.buffers[i], max);
  }

  /** Syncing first leaves nothing in flight, so the GMR is not torn. */
  lemma SafeComplete(s: System, i: nat, max: nat)
    requires Safe(s, max) && i < |s.buffers|
    ensures Safe(Step(s, Complete(i)), max)
  {
    hide Wired, Exclusive, BuffersOk, NoLeaks, Holder;
    var s1 := Step(s, Sync(i));
    SafeSync(s, i, max);
    BufferOkAt(s.dev, s.buffers, i, max);
    BufferOkAt(s1.dev, s1.buffers, i, max);
    var b := s1.buffers[i];
    if b.gmr >= 0 {
      var o := ReleaseStep(s1.dev, b);
      WiredUpdate(s1.buffers, |s1.buffers|, i, b);
      assert o.dev.wired + WiredBy(b) == s1.dev.wired;
      SafeReplace(s1, o.dev, i, o.buf, max);
      assert s1.buffers[i := o.buf] == s.buffers[i := o.buf];
    }
  }

  lemma SafeMemory(s: System, i: nat, md: Option<nat>, max: nat)
    requires Safe(s, max) && i < |s.buffers| && s.buffers[i].gmr < 0
    ensures Safe(System(s.dev, s.buffers[i := s.buffers[i].(md := md)]), max)
  {
    hide Wired, Exclusive, BuffersOk, NoLeaks, Holder;
    SafeReplace(s, s.dev, i, s.buffers[i].(md := md), max);
  }

  lemma PrepareSamePool(dev: Device, buf: Buffer, mdOk: bool, gmrOk: bool)
    ensures var ids := PrepareStep(dev, buf, mdOk, gmrOk).dev.ids; ids == dev.ids.(used := ids.used)
  {
    hide FirstFree;
  }

  lemma CompleteSamePool(dev: Device, buf: Buffer)
    ensures var ids := CompleteStep(dev, buf).dev.ids; ids == dev.ids.(used := ids.used)
  {
  }

  lemma StepSamePool(s: System, c: Call)
    requires c.i < |s.buffers|
    ensures var r := Step(s, c);
            |r.buffers| == |s.buffers| && r.dev.ids == s.dev.ids.(used := r.dev.ids.used)
  {
    hide PrepareStep, CompleteStep;
    match c
    case Prepare(i, mdOk, gmrOk) => PrepareSamePool(s.dev, s.buffers[i], mdOk, gmrOk);
    case Complete(i) => CompleteSamePool(s.dev, s.buffers[i]);
    case _ =>
  }

  lemma StepSafe(s: System, c: Call, max: nat)
    requires Safe(s, max) && Legal(s, c)
    ensures Safe(Step(s, c), max)
  {
    hide Safe, PrepareStep, SyncStep, CompleteStep;
    match c
    case Prepare(i, mdOk, gmrOk) => SafePrepare(s, i, mdOk, gmrOk, max);
    case Transfer(i, fence) => SafeTransfer(s, i, fence, max);
    case Sync(i) => SafeSync(s, i, max);
    case Complete(i) => SafeComplete(s, i, max);
    case Discard(i) => SafeMemory(s, i, None, max);
    case Attach(i, md) => SafeMemory(s, i, Some(md), max);
  }

  // ----- Runs -----

  predicate LegalRun(s: System, calls: seq<Call>)
    decreases |calls|
  {
    calls == [] || (Legal(s, calls[0]) && LegalRun(Step(s, calls[0]), calls[1..]))
  }

  function Run(s: System, calls: seq<Call>): (r: System)
    requires LegalRun(s, calls)
    decreases |calls|
  {
    if calls == [] then s else Run(Step(s, calls[0]), calls[1..])
  }

  /** Freshly initialised buffers and the device at start-up. */
  predicate Initial(s: System, max: nat) {
    && s.dev == Device(Ids(128, IdRange(max, 128), 0), map[], multiset{}, map[], {})
    && forall i :: 0 <= i < |s.buffers| ==> s.buffers[i].gmr == -1
  }

  lemma {:induction false} NothingWired(buffers: seq<Buffer>, n: nat)
    requires n <= |buffers| && forall i :: 0 <= i < n ==> buffers[i].gmr < 0
    ensures Wired(buffers, n) == multiset{}
  {
    if n > 0 { NothingWired(buffers, n - 1); }
  }

  lemma InitialSafe(s: System, max: nat)
    requires Initial(s, max)
    ensures Safe(s, max)
  {
    NothingWired(s.buffers, |s.buffers|);
  }

  /** Over every run of the protocol nothing is shared, leaked or torn. */
  lemma {:induction false} RunSafe(s: System, calls: seq<Call>, max: nat)
    requires Safe(s, max) && LegalRun(s, calls)
    ensures var r := Run(s, calls);
            Safe(r, max) && |r.buffers| == |s.buffers| && r.dev.ids == s.dev.ids.(used := r.dev.ids.used)
    decreases |calls|
  {
    hide Safe, Step;
    if calls != [] {
      StepSamePool(s, calls[0]);
      StepSafe(s, calls[0], max);
      RunSafe(Step(s, calls[0]), calls[1..], max);
    }
  }

  /** When every buffer has been completed the device is as at start-up. */
  lemma RunDrained(s: System, calls: seq<Call>, max: nat)
    requires Initial(s, max) && LegalRun(s, calls)
    requires var r := Run(s, calls); forall i :: 0 <= i < |r.buffers| ==> r.buffers[i].gmr < 0
    ensures Run(s, calls).dev == s.dev
  {
    hide Run, LegalRun;
    InitialSafe(s, max);
    RunSafe(s, calls, max);
    var r := Run(s, calls);
    NothingWired(r.buffers, |r.buffers|);
  }

  // ----- What one buffer's calls undo -----

  /** When each status is reported: success exactly if the buffer ends up with an ID,
      which it had before or which was free and is now defined for its memory. */
  lemma PrepareMeans(dev: Device, buf: Buffer, mdOk: bool, gmrOk: bool)
    ensures var o := PrepareStep(dev, buf, mdOk, gmrOk);
            var room := exists id: nat :: id < dev.ids.capacity && id !in dev.ids.used;
            && (o.status == Success <==> o.buf.gmr >= 0)
            && (o.status == Success <==> buf.gmr >= 0 || (buf.md.Some? && room && mdOk && gmrOk))
            && (o.status == NotReady <==> buf.gmr < 0 && buf.md.None?)
            && (o.status == NoResources <==> buf.gmr < 0 && buf.md.Some? && !room)
            && (o.status == WiringFailed <==> buf.gmr < 0 && buf.md.Some? && room && !mdOk)
            && (o.status == CreateFailed <==> buf.gmr < 0 && buf.md.Some? && room && mdOk && !gmrOk)
            && (o.status == Success && buf.gmr >= 0 ==> o.dev == dev && o.buf == buf)
            && (o.status == Success && buf.gmr < 0 ==>
                 && o.buf.gmr < dev.ids.capacity && o.buf.gmr !in dev.ids.used && o.buf.gmr in o.dev.ids.used
                 && o.buf.gmr in o.dev.defined && o.dev.defined[o.buf.gmr] == buf.md.value)
  {
    hide FirstFree;
    var k := FirstFree(dev.ids.used, 0, dev.ids.capacity);
  }

  /** After a sync the buffer has no fence, and after a complete no ID either; what
      its fence guarded is no longer in flight, and nothing else has changed there. */
  lemma SyncMeans(dev: Device, buf: Buffer)
    ensures var o, c := SyncStep(dev, buf), CompleteStep(dev, buf);
            && o.buf == buf.(fence := 0) && c.buf.fence == 0 && c.buf.gmr < 0
            && o.dev.busy == c.dev.busy && o.dev == dev.(busy := o.dev.busy)
            && (forall id: nat :: id in o.dev.busy <==> id in dev.busy && (buf.fence == 0 || dev.busy[id] != buf.fence))
            && (forall id: nat :: id in o.dev.busy ==> o.dev.busy[id] == dev.busy[id])
  {
  }

  /** A prepare that fails leaves the device as it was. */
  lemma FailedPrepareLeavesNoTrace(dev: Device, buf: Buffer, mdOk: bool, gmrOk: bool)
    requires PrepareStep(dev, buf, mdOk, gmrOk).status != Success
    ensures var o := PrepareStep(dev, buf, mdOk, gmrOk);
            o.dev == dev && buf.gmr < 0 && o.buf.gmr < 0 && o.buf == buf.(gmr := o.buf.gmr)
  {
  }

  /** Completing right after a successful prepare comes to no more than a sync. */
  lemma PrepareThenComplete(s: System, i: nat, mdOk: bool, gmrOk: bool, max: nat)
    requires Safe(s, max) && i < |s.buffers| && s.buffers[i].gmr < 0
    requires PrepareStep(s.dev, s.buffers[i], mdOk, gmrOk).status == Success
    ensures var o := PrepareStep(s.dev, s.buffers[i], mdOk, gmrOk);
            var synced := SyncStep(s.dev, s.buffers[i]);
            CompleteStep(o.dev, o.buf) == synced.(buf := synced.buf.(gmr := -1))
  {
    hide FirstFree, Wired, Exclusive, BuffersOk, NoLeaks, Holder;
    FreshId(s, max);
  }

  /** Discarding a buffer before it is completed leaves its memory wired for good;
      in a safe state this happens exactly when the buffer is prepared. */
  lemma DiscardLeaksIffPrepared(s: System, i: nat, max: nat)
    requires Safe(s, max) && i < |s.buffers|
    ensures var r := Step(Step(s, Discard(i)), Complete(i));
            r.dev.wired == Wired(r.buffers, |r.buffers|) <==> s.buffers[i].gmr < 0
  {
    hide Exclusive, BuffersOk, NoLeaks, Holder, Wired;
    BufferOkAt(s.dev, s.buffers, i, max);
    var s1 := Step(s, Discard(i));
    var r := Step(s1, Complete(i));
    assert r.buffers == s.buffers[i := r.buffers[i]];
    WiredUpdate(s.buffers, |s.buffers|, i, r.buffers[i]);
  }
}
