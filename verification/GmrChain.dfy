/** Guest memory regions: how a list of physical segments is described to the
    device.  createGMR writes a chain of descriptor pages, createGMR2 a flat
    list of page numbers. */
module GmrChain {
  import opened Common

  /** A physically contiguous piece of a memory descriptor. */
  datatype Segment = Segment(addr: nat, length: nat)

  /** A range of numPages pages from ppn on; with numPages == 0 a link to the
      descriptor page ppn, or the end of the chain if ppn is 0 too. */
  datatype Desc = Desc(ppn: nat, numPages: nat)

  datatype Status = Success | BadArgument | Unsupported | NoResources | Overrun

  // ----- Memory descriptors -----

  ghost predicate SegmentsOk(segs: seq<Segment>) {
    forall i :: 0 <= i < |segs| ==> segs[i].addr > 0 && segs[i].length > 0
  }

  /** A page number that does not fit 32 bits: addr >> 44 is not zero. */
  predicate TooHigh(addr: nat) {
    addr / 0x1000_0000_0000 != 0
  }

  /** The address test refuses exactly the page numbers that do not fit a descriptor. */
  lemma TooHighIff(addr: nat)
    ensures TooHigh(addr) <==> addr / 4096 >= 0x1_0000_0000
  {
  }

  /** Total length of the first n segments. */
  function Sum(segs: seq<Segment>, n: nat): (r: nat)
    requires n <= |segs|
  {
    if n == 0 then 0 else Sum(segs, n - 1) + segs[n - 1].length
  }

  lemma SumNone(segs: seq<Segment>)
    ensures Sum(segs, 0) == 0
  {
  }

  lemma SumNext(segs: seq<Segment>, j: nat)
    requires j < |segs|
    ensures Sum(segs, j + 1) == Sum(segs, j) + segs[j].length
  {
  }

  /** What getPhysicalSegment reports at an offset, searching from segment k. */
  function SegmentAt(segs: seq<Segment>, k: nat, offset: nat): (r: Segment)
    requires k <= |segs|
    decreases |segs| - k
  {
    if k == |segs| then Segment(0, 0)
    else if offset < segs[k].length then Segment(segs[k].addr + offset, segs[k].length - offset)
    else SegmentAt(segs, k + 1, offset - segs[k].length)
  }

  lemma {:induction false} SumMonotone(segs: seq<Segment>, k: nat, j: nat)
    requires k <= j <= |segs|
    ensures Sum(segs, k) <= Sum(segs, j)
  {
    if k < j { SumMonotone(segs, k, j - 1); }
  }

  /** Walking by the lengths reported visits the segments one by one. */
  lemma {:induction false} SegmentAtBoundary(segs: seq<Segment>, k: nat, j: nat)
    requires SegmentsOk(segs) && k <= j <= |segs|
    ensures Sum(segs, k) <= Sum(segs, j)
    ensures SegmentAt(segs, k, Sum(segs, j) - Sum(segs, k)) == if j == |segs| then Segment(0, 0) else segs[j]
    ensures j < |segs| ==> segs[j].addr != 0
    decreases j - k
  {
    SumMonotone(segs, k, j);
    if k < j {
      SumMonotone(segs, k + 1, j);
      SegmentAtBoundary(segs, k + 1, j);
    }
  }

  function NumPages(s: Segment): (r: nat) {
    (s.length + s.addr % 4096 + 4095) / 4096
  }

  /** What is counted: the pages of a segment are exactly those that hold a byte of it. */
  lemma PageOfSegmentIff(s: Segment, p: nat)
    requires s.length > 0
    ensures s.addr / 4096 <= p < s.addr / 4096 + NumPages(s)
       <==> 4096 * p < s.addr + s.length && s.addr < 4096 * (p + 1)
  {
  }

  ghost predicate CountsFit(segs: seq<Segment>) {
    forall i :: 0 <= i < |segs| ==> NumPages(segs[i]) < 0x1_0000_0000
  }

  /** The pages a segment really takes. */
  function RangeOf(s: Segment): (r: Desc) {
    Desc(s.addr / 4096, NumPages(s))
  }

  function Ranges(segs: seq<Segment>): (r: seq<Desc>)
    ensures |r| == |segs| && forall i :: 0 <= i < |segs| ==> r[i] == RangeOf(segs[i])
  {
    seq(|segs|, i requires 0 <= i < |segs| => RangeOf(segs[i]))
  }

  /** What fits the two 32-bit fields of a descriptor. */
  function DescOf(s: Segment): (r: Desc) {
    Desc(s.addr / 4096 % 0x1_0000_0000, NumPages(s) % 0x1_0000_0000)
  }

  function Descs(segs: seq<Segment>): (r: seq<Desc>)
    ensures |r| == |segs| && forall i :: 0 <= i < |segs| ==> r[i] == DescOf(segs[i])
  {
    seq(|segs|, i requires 0 <= i < |segs| => DescOf(segs[i]))
  }

  // ----- The helper buffer -----

  /** Page i of the helper is physical page ppns[i]; asked about page i, its
      descriptor reports a run of runs[i] contiguous pages.  Any fragmentation
      is allowed. */
  ghost predicate HelperOk(ppns: seq<nat>, runs: seq<nat>) {
    && |ppns| == |runs|
    && (forall i :: 0 <= i < |ppns| ==> 0 < ppns[i] < 0x1_0000_0000 && 1 <= runs[i] <= |ppns| - i)
    && (forall i, t :: 0 <= i < |ppns| && i <= t < i + runs[i] ==> ppns[t] == ppns[i] + t - i)
    && (forall i, j :: 0 <= i < j < |ppns| ==> ppns[i] != ppns[j])
  }

  const ZERO := Desc(0, 0)

  /** A page holds 512 descriptors of 8 bytes, the last of them the link (dpp is 511).
      Contents of slot i of the chain once j descriptors and the links of the
      first np - 1 pages have been written. */
  function Slot(descs: seq<Desc>, ppns: seq<nat>, j: nat, np: nat, i: nat): (d: Desc)
    requires j <= |descs| && np <= |ppns|
  {
    var p, k := i / 512, i % 512;
    if k < 511 then (if 511 * p + k < j then descs[511 * p + k] else ZERO)
    else if p + 1 < np then Desc(ppns[p + 1], 0)
    else ZERO
  }

  ghost predicate Written(buf: seq<Desc>, descs: seq<Desc>, ppns: seq<nat>, j: nat, np: nat) {
    && j <= |descs| && np <= |ppns| && |buf| == 512 * |ppns|
    && forall i :: 0 <= i < |buf| ==> buf[i] == Slot(descs, ppns, j, np, i)
  }

  /** Pages needed for n descriptors. */
  function PagesFor(n: nat): (r: nat)
    ensures 511 * r >= n && (n > 0 ==> 511 * (r - 1) < n)
  {
    (n + 510) / 511
  }

  /** Counts the segments and rejects addresses beyond 32-bit page numbers (the
      first loop of createGMR). */
  method CountRanges(segs: seq<Segment>) returns (status: Status, n: nat)
    requires SegmentsOk(segs)
    ensures status == Success <==> forall i :: 0 <= i < |segs| ==> !TooHigh(segs[i].addr)
    ensures status == Success ==> n == |segs|
    ensures status != Success ==> status == Unsupported
  {
    n := 0;
    var offset := 0;
    SegmentAtBoundary(segs, 0, 0);
    while true
      invariant n <= |segs| && offset == Sum(segs, n)
      invariant forall i :: 0 <= i < n ==> !TooHigh(segs[i].addr)
      decreases |segs| - n
    {
      SegmentAtBoundary(segs, 0, n);
      var s := SegmentAt(segs, 0, offset);
      if s.addr == 0 { break; }
      if TooHigh(s.addr) { return Unsupported, n; }
      n := n + 1;
      offset := offset + s.length;
    }
    status := Success;
  }

  lemma PutDesc(buf: seq<Desc>, descs: seq<Desc>, ppns: seq<nat>, j: nat, np: nat, hp: nat)
    requires Written(buf, descs, ppns, j, np) && j < |descs| && 1 <= np && hp < |buf|
    requires 511 * (np - 1) <= j < 511 * np && hp == 512 * (np - 1) + (j - 511 * (np - 1))
    ensures Written(buf[hp := descs[j]], descs, ppns, j + 1, np)
  {
  }

  lemma PutLink(buf: seq<Desc>, descs: seq<Desc>, ppns: seq<nat>, j: nat, np: nat)
    requires Written(buf, descs, ppns, j, np) && 1 <= np < |ppns| && j == 511 * np
    ensures Written(buf[512 * np - 1 := Desc(ppns[np], 0)], descs, ppns, j, np + 1)
  {
  }

  /** Lays the descriptors out (the second loop of createGMR).  Every write stays
      inside the helper, whatever its fragmentation. */
  method FillChain(segs: seq<Segment>, ppns: seq<nat>, runs: seq<nat>, buf: array<Desc>)
    requires SegmentsOk(segs) && |segs| > 0 && HelperOk(ppns, runs) && |ppns| == PagesFor(|segs|)
    requires buf.Length == 512 * |ppns| && forall i :: 0 <= i < buf.Length ==> buf[i] == ZERO
    modifies buf
    ensures Written(buf[..], Descs(segs), ppns, |segs|, |ppns|)
  {
    hide Written, DescOf, PagesFor, HelperOk, SegmentAt, SegmentsOk, Sum, RunAhead;
    SumNone(segs);
    ghost var descs := Descs(segs);
    var numPages := |ppns|;
    assert Written(buf[..], descs, ppns, 0, 1) by { NothingWritten(buf[..], descs, ppns); }
    StartRun(ppns, runs, 0);
    var helperPpn: nat, helperLength := (ppns[0] + 1) % 0x1_0000_0000, 4096 * runs[0] - 4096;
    var offset: nat, nextPage: nat, inPage: nat, hp: nat := 0, 1, 511, 0;
    ghost var j: nat := 0;
    while true
      invariant 1 <= nextPage <= numPages && 1 <= inPage <= 511
      invariant j == 511 * (nextPage - 1) + 511 - inPage <= |segs| && hp == 512 * (nextPage - 1) + 511 - inPage
      invariant offset == Sum(segs, j)
      invariant RunAhead(ppns, nextPage, helperPpn, helperLength)
      invariant Written(buf[..], descs, ppns, j, nextPage)
      decreases |segs| - j
    {
      SegmentAtBoundary(segs, 0, j);
      var s := SegmentAt(segs, 0, offset);
      if s.addr == 0 { break; }
      SumNext(segs, j);
      offset := offset + s.length;
      PutDesc(buf[..], descs, ppns, j, nextPage, hp);
      ghost var before := buf[..];
      buf[hp] := DescOf(s);
      assert buf[..] == before[hp := descs[j]];
      hp := hp + 1;
      inPage := inPage - 1;
      j := j + 1;
      if inPage != 0 { continue; }
      if helperLength > 0 {
      } else if nextPage < numPages {
        StartRun(ppns, runs, nextPage);
        helperPpn, helperLength := ppns[nextPage], 4096 * runs[nextPage];
      } else {
        break;
      }
      RunOn(ppns, runs, nextPage, helperPpn, helperLength);
      PutLink(buf[..], descs, ppns, j, nextPage);
      ghost var before2 := buf[..];
      buf[hp] := Desc(helperPpn, 0);
      assert buf[..] == before2[hp := Desc(ppns[nextPage], 0)];
      helperPpn := (helperPpn + 1) % 0x1_0000_0000;
      helperLength := helperLength - 4096;
      hp := 512 * nextPage;
      nextPage := nextPage + 1;
      inPage := 511;
    }
    FilledUp(|segs|, numPages, nextPage, j, inPage);
  }

  lemma NothingWritten(buf: seq<Desc>, descs: seq<Desc>, ppns: seq<nat>)
    requires |ppns| > 0 && |buf| == 512 * |ppns| && forall i :: 0 <= i < |buf| ==> buf[i] == ZERO
    ensures Written(buf, descs, ppns, 0, 1)
  {
  }

  lemma StartRun(ppns: seq<nat>, runs: seq<nat>, i: nat)
    requires HelperOk(ppns, runs) && i < |ppns|
    ensures |runs| == |ppns| && 0 < ppns[i] < 0x1_0000_0000
    ensures RunAhead(ppns, i, ppns[i], 4096 * runs[i])
    ensures RunAhead(ppns, i + 1, (ppns[i] + 1) % 0x1_0000_0000, 4096 * runs[i] - 4096)
  {
    if runs[i] > 1 { assert ppns[i + 1] == ppns[i] + 1; }
  }

  lemma RunOn(ppns: seq<nat>, runs: seq<nat>, nextPage: nat, helperPpn: nat, helperLength: int)
    requires HelperOk(ppns, runs) && RunAhead(ppns, nextPage, helperPpn, helperLength) && helperLength > 0
    ensures nextPage < |ppns| && ppns[nextPage] == helperPpn && helperLength >= 4096
    ensures RunAhead(ppns, nextPage + 1, (helperPpn + 1) % 0x1_0000_0000, helperLength - 4096)
  {
    if helperLength > 4096 { assert ppns[nextPage + 1] == helperPpn + 1; }
  }

  lemma FilledUp(n: nat, numPages: nat, nextPage: nat, j: nat, inPage: nat)
    requires n > 0 && numPages == PagesFor(n) && 1 <= nextPage <= numPages && inPage <= 511
    requires j == 511 * (nextPage - 1) + 511 - inPage <= n
    requires if inPage > 0 then j == n else nextPage == numPages
    ensures j == n && nextPage == numPages
  {
  }

  /** The next helperLength bytes of the helper are physically contiguous from helperPpn on. */
  ghost predicate RunAhead(ppns: seq<nat>, nextPage: nat, helperPpn: nat, helperLength: int) {
    && helperLength >= 0 && helperLength % 4096 == 0 && nextPage + helperLength / 4096 <= |ppns|
    && forall t :: nextPage <= t < nextPage + helperLength / 4096 ==> ppns[t] == helperPpn + t - nextPage
  }

  // ----- Reading the chain back -----

  /** The device's walk, from slot `slot` of page `page`: ranges are collected,
      links followed by physical page number, and the zero descriptor ends it.
      Pages in `left` have not been entered yet; entering a page twice, running
      off a page or following a link out of the helper is malformed. */
  function Walk(buf: seq<Desc>, ppns: seq<nat>, page: nat, slot: nat, left: set<nat>): (r: Option<seq<Desc>>)
    requires |buf| == 512 * |ppns| && page < |ppns| && slot <= 512
    decreases left, 512 - slot
  {
    if slot == 512 then None
    else
      var d := buf[512 * page + slot];
      if d.numPages != 0 then
        match Walk(buf, ppns, page, slot + 1, left)
        case None => None
        case Some(rest) => Some([d] + rest)
      else if d.ppn == 0 then Some([])
      else if d.ppn in ppns && IndexOf(ppns, d.ppn) in left then
        Walk(buf, ppns, IndexOf(ppns, d.ppn), 0, left - {IndexOf(ppns, d.ppn)})
      else None
  }

  ghost predicate Rest(left: set<nat>, page: nat, n: nat) {
    forall p: nat :: page < p < n ==> p in left
  }

  lemma SlotValue(buf: seq<Desc>, descs: seq<Desc>, ppns: seq<nat>, p: nat, k: nat)
    requires Written(buf, descs, ppns, |descs|, |ppns|) && |ppns| == PagesFor(|descs|)
    requires p < |ppns| && k <= 511 && 511 * p + k <= |descs|
    ensures |buf| == 512 * |ppns|
    ensures k < 511 && 511 * p + k < |descs| ==> buf[512 * p + k] == descs[511 * p + k]
    ensures k < 511 && 511 * p + k == |descs| ==> buf[512 * p + k] == ZERO
    ensures k == 511 && p + 1 < |ppns| ==> buf[512 * p + k] == Desc(ppns[p + 1], 0) && 511 * (p + 1) <= |descs|
    ensures k == 511 && p + 1 == |ppns| ==> buf[512 * p + k] == ZERO && 511 * p + k == |descs|
  {
    assert buf[512 * p + k] == Slot(descs, ppns, |descs|, |ppns|, 512 * p + k);
  }

  /** From page p, slot k, the walk yields exactly the descriptors from 511 * p + k on. */
  lemma {:induction false} WalkFrom(buf: seq<Desc>, descs: seq<Desc>, ppns: seq<nat>, runs: seq<nat>, p: nat,
                                    k: nat, left: set<nat>)
    requires HelperOk(ppns, runs) && Written(buf, descs, ppns, |descs|, |ppns|) && |ppns| == PagesFor(|descs|)
    requires forall i :: 0 <= i < |descs| ==> descs[i].numPages != 0
    requires p < |ppns| && k <= 511 && 511 * p + k <= |descs| && Rest(left, p, |ppns|)
    ensures Walk(buf, ppns, p, k, left) == Some(descs[511 * p + k..])
    decreases |ppns| - p, 512 - k
  {
    hide HelperOk, Written, PagesFor, Rest, IndexOf;
    var s := 511 * p + k;
    SlotValue(buf, descs, ppns, p, k);
    if k < 511 && s < |descs| {
      WalkFrom(buf, descs, ppns, runs, p, k + 1, left);
      assert descs[s..] == [descs[s]] + descs[s + 1..];
    } else if k == 511 && p + 1 < |ppns| {
      FollowLink(buf, ppns, runs, p, left);
      WalkFrom(buf, descs, ppns, runs, p + 1, 0, left - {p + 1});
    } else {
      assert descs[s..] == [];
    }
  }

  lemma FollowLink(buf: seq<Desc>, ppns: seq<nat>, runs: seq<nat>, p: nat, left: set<nat>)
    requires HelperOk(ppns, runs) && |buf| == 512 * |ppns| && p + 1 < |ppns| && Rest(left, p, |ppns|)
    requires buf[512 * p + 511] == Desc(ppns[p + 1], 0)
    ensures Walk(buf, ppns, p, 511, left) == Walk(buf, ppns, p + 1, 0, left - {p + 1})
    ensures Rest(left - {p + 1}, p + 1, |ppns|)
  {
    assert ppns[p + 1] in ppns;
    assert IndexOf(ppns, ppns[p + 1]) == p + 1;
  }

  function OtherPages(n: nat): (r: set<nat>)
    ensures forall p: nat :: p in r <==> 1 <= p < n
  {
    if n <= 1 then {} else OtherPages(n - 1) + {n - 1}
  }

  /** The walk yields no empty range, for that is how links are told apart, and no
      range its fields cannot hold. */
  lemma {:induction false} WalkYieldsRanges(buf: seq<Desc>, ppns: seq<nat>, page: nat, slot: nat, left: set<nat>)
    requires |buf| == 512 * |ppns| && page < |ppns| && slot <= 512
    requires forall i :: 0 <= i < |buf| ==> buf[i].numPages < 0x1_0000_0000
    ensures var w := Walk(buf, ppns, page, slot, left);
            w.Some? ==> forall i :: 0 <= i < |w.value| ==> 0 < w.value[i].numPages < 0x1_0000_0000
    decreases left, 512 - slot
  {
    if slot < 512 {
      var d := buf[512 * page + slot];
      if d.numPages != 0 {
        WalkYieldsRanges(buf, ppns, page, slot + 1, left);
      } else if d.ppn != 0 && d.ppn in ppns && IndexOf(ppns, d.ppn) in left {
        var next := IndexOf(ppns, d.ppn);
        WalkYieldsRanges(buf, ppns, next, 0, left - {next});
      }
    }
  }

  lemma DescsExact(segs: seq<Segment>)
    requires CountsFit(segs) && forall i :: 0 <= i < |segs| ==> !TooHigh(segs[i].addr)
    ensures Descs(segs) == Ranges(segs)
  {
    hide NumPages;
  }

  /** Round trip: for any number of segments that pass the address test, and any
      fragmentation of the helper, the device reads back exactly the pages of the
      segments, in order, if and only if every page count fits 32 bits. */
  lemma ChainRoundTrip(buf: seq<Desc>, segs: seq<Segment>, ppns: seq<nat>, runs: seq<nat>)
    requires |segs| > 0 && SegmentsOk(segs) && forall i :: 0 <= i < |segs| ==> !TooHigh(segs[i].addr)
    requires HelperOk(ppns, runs) && |ppns| == PagesFor(|segs|)
    requires Written(buf, Descs(segs), ppns, |segs|, |ppns|)
    ensures Walk(buf, ppns, 0, 0, OtherPages(|ppns|)) == Some(Ranges(segs))
       <==> CountsFit(segs)
  {
    hide Walk, HelperOk, PagesFor, TooHigh;
    WalkYieldsRanges(buf, ppns, 0, 0, OtherPages(|ppns|));
    assert forall i :: 0 <= i < |segs| ==> Ranges(segs)[i].numPages == NumPages(segs[i]) > 0;
    if CountsFit(segs) {
      DescsExact(segs);
      WalkFrom(buf, Ranges(segs), ppns, runs, 0, 0, OtherPages(|ppns|));
      assert Ranges(segs)[0..] == Ranges(segs);
    }
  }

  /** The failing case: 2^32 + 1 pages are accepted and described as one. */
  lemma CountWraps()
    ensures var s := Segment(4096, 4096 * 0x1_0000_0001);
            !TooHigh(s.addr) && RangeOf(s) == Desc(1, 0x1_0000_0001) && DescOf(s) == Desc(1, 1)
  {
  }

  /** createGMR up to the call that defines the region: the page number given to
      the device and the chain it will read. */
  method CreateGMR(segs: seq<Segment>, hasGmr: bool, maxDescriptors: nat, ppns: seq<nat>, runs: seq<nat>)
    returns (status: Status, basePpn: nat, chain: seq<Desc>)
    requires SegmentsOk(segs) && HelperOk(ppns, runs) && (|segs| > 0 ==> |ppns| == PagesFor(|segs|))
    ensures status ==
              if !hasGmr || exists i :: 0 <= i < |segs| && TooHigh(segs[i].addr) then Unsupported
              else if segs == [] then BadArgument
              else if |segs| + PagesFor(|segs|) > maxDescriptors then NoResources
              else Success
    ensures status == Success ==>
              && |ppns| > 0 && basePpn == ppns[0] && |chain| == 512 * |ppns|
              && (Walk(chain, ppns, 0, 0, OtherPages(|ppns|)) == Some(Ranges(segs))
                  <==> CountsFit(segs))
  {
    basePpn, chain := 0, [];
    if !hasGmr { return Unsupported, basePpn, chain; }
    var n;
    status, n := CountRanges(segs);
    if status != Success { return; }
    if n == 0 { return BadArgument, basePpn, chain; }
    var numPages := PagesFor(n);
    if n + numPages > maxDescriptors { return NoResources, basePpn, chain; }
    var buf := new Desc[512 * numPages](_ => ZERO);
    FillChain(segs, ppns, runs, buf);
    ChainRoundTrip(buf[..], segs, ppns, runs);
    basePpn, chain := ppns[0], buf[..];
  }

  // ----- The flat page list -----

  /** The pages of a range. */
  function PagesOf(ppn: nat, n: nat): (r: seq<nat>)
    ensures |r| == n && forall i :: 0 <= i < n ==> r[i] == ppn + i
  {
    seq(n, i requires 0 <= i => ppn + i)
  }

  /** So the pages of its range are exactly the pages a segment touches. */
  lemma RangePagesIff(s: Segment, p: nat)
    requires s.length > 0
    ensures p in PagesOf(RangeOf(s).ppn, RangeOf(s).numPages)
       <==> 4096 * p < s.addr + s.length && s.addr < 4096 * (p + 1)
  {
    PageOfSegmentIff(s, p);
    hide NumPages;
    var r := RangeOf(s);
    if r.ppn <= p < r.ppn + r.numPages { assert PagesOf(r.ppn, r.numPages)[p - r.ppn] == p; }
  }

  /** Page numbers cut to 32 bits. */
  function Low32(pages: seq<nat>): (r: seq<nat>)
    ensures |r| == |pages| && forall i :: 0 <= i < |pages| ==> r[i] == pages[i] % 0x1_0000_0000
  {
    seq(|pages|, i requires 0 <= i < |pages| => pages[i] % 0x1_0000_0000)
  }

  lemma Low32Append(a: seq<nat>, b: seq<nat>)
    ensures Low32(a + b) == Low32(a) + Low32(b)
  {
  }

  /** All pages described by a list of ranges. */
  function Flatten(descs: seq<Desc>, n: nat): (r: seq<nat>)
    requires n <= |descs|
  {
    if n == 0 then [] else Flatten(descs, n - 1) + PagesOf(descs[n - 1].ppn, descs[n - 1].numPages)
  }

  /** Bytes of the last page of each segment, and of the first, that are not part of it. */
  function Waste(segs: seq<Segment>, n: nat): (r: int)
    requires n <= |segs|
  {
    if n == 0 then 0 else Waste(segs, n - 1) + 4096 * NumPages(segs[n - 1]) - segs[n - 1].length
  }

  function PageCount(segs: seq<Segment>, n: nat): (r: nat)
    requires n <= |segs|
  {
    if n == 0 then 0 else PageCount(segs, n - 1) + NumPages(segs[n - 1])
  }

  lemma {:induction false} WasteIsCount(segs: seq<Segment>, n: nat)
    requires n <= |segs|
    ensures Waste(segs, n) == 4096 * PageCount(segs, n) - Sum(segs, n) >= 0
  {
    if n > 0 { WasteIsCount(segs, n - 1); }
  }

  /** The list createGMR2 allocates, one entry per page of the total length, is
      never too long, and is long enough exactly if less than a page is wasted. */
  lemma ListFitsIff(segs: seq<Segment>)
    ensures (Sum(segs, |segs|) + 4095) / 4096 <= PageCount(segs, |segs|)
    ensures (Sum(segs, |segs|) + 4095) / 4096 == PageCount(segs, |segs|) <==> Waste(segs, |segs|) < 4096
  {
    WasteIsCount(segs, |segs|);
  }

  /** The case the code assumes: segments start on page boundaries and all but
      the last end on one. */
  ghost predicate PageAligned(segs: seq<Segment>) {
    forall i :: 0 <= i < |segs| ==> segs[i].addr % 4096 == 0 && (i + 1 < |segs| ==> segs[i].length % 4096 == 0)
  }

  lemma {:induction false} AlignedWastesNothing(segs: seq<Segment>, n: nat)
    requires PageAligned(segs) && n <= |segs|
    ensures n < |segs| ==> Waste(segs, n) == 0
    ensures Waste(segs, n) < 4096
  {
    if n > 0 {
      AlignedWastesNothing(segs, n - 1);
    }
  }

  /** Two half pages in different places need two entries, but get one. */
  lemma ListCanOverflow()
    ensures exists segs :: SegmentsOk(segs) && (Sum(segs, |segs|) + 4095) / 4096 < PageCount(segs, |segs|)
  {
    var segs := [Segment(0x1000, 2048), Segment(0x3000, 2048)];
    assert Sum(segs, 1) == 2048 && Sum(segs, 2) == 4096;
    assert PageCount(segs, 1) == 1 && PageCount(segs, 2) == 2;
  }

  lemma {:induction false} FlattenLength(segs: seq<Segment>, n: nat)
    requires n <= |segs|
    ensures |Flatten(Ranges(segs), n)| == PageCount(segs, n)
  {
    if n > 0 { FlattenLength(segs, n - 1); }
  }

  lemma RangeFits(s: Segment)
    requires s.length > 0
    ensures var p := PagesOf(s.addr / 4096, NumPages(s));
            Low32(p) == p <==> s.addr / 4096 + NumPages(s) <= 0x1_0000_0000
  {
    var ppn, n := s.addr / 4096, NumPages(s);
    var p := PagesOf(ppn, n);
    assert n > 0 && p[n - 1] == ppn + n - 1;
    hide NumPages, PagesOf, Low32;
    assert Low32(p)[n - 1] == (ppn + n - 1) % 0x1_0000_0000;
  }

  /** The 32-bit list names the pages of the segments if and only if every segment
      ends within the first 2^32 pages; the address test looks only at its start. */
  lemma {:induction false} ListExactIff(segs: seq<Segment>, n: nat)
    requires SegmentsOk(segs) && n <= |segs|
    ensures var pages := Flatten(Ranges(segs), n);
            Low32(pages) == pages
            <==> forall i :: 0 <= i < n ==> segs[i].addr / 4096 + NumPages(segs[i]) <= 0x1_0000_0000
  {
    hide NumPages, PagesOf, Low32;
    if n > 0 {
      ListExactIff(segs, n - 1);
      RangeFits(segs[n - 1]);
      var front, last := Flatten(Ranges(segs), n - 1), PagesOf(segs[n - 1].addr / 4096, NumPages(segs[n - 1]));
      Low32Append(front, last);
      assert Low32(front) + Low32(last) == front + last <==> Low32(front) == front && Low32(last) == last by {
        if Low32(front) + Low32(last) == front + last {
          assert Low32(front) == (front + last)[..|front|] && Low32(last) == (front + last)[|front|..];
        }
      }
    } else {
      assert Low32([]) == [];
    }
  }

  /** The failing case: the second page of this segment is listed as page 0. */
  lemma PageWraps()
    ensures var s := Segment(0x0FFF_FFFF_F000, 8192);
            !TooHigh(s.addr) && Waste([s], 1) == 0 && Low32(Flatten(Ranges([s]), 1)) == [0xFFFF_FFFF, 0]
  {
    var s := Segment(0x0FFF_FFFF_F000, 8192);
    assert Ranges([s])[0] == Desc(0xFFFF_FFFF, 2);
    assert Waste([s], 0) == 0 && Flatten(Ranges([s]), 0) == [];
    assert Flatten(Ranges([s]), 1) == [0xFFFF_FFFF, 0x1_0000_0000];
  }

  lemma {:induction false} FlattenShorter(segs: seq<Segment>, n: nat)
    requires n <= |segs|
    ensures |Flatten(Descs(segs), n)| <= |Flatten(Ranges(segs), n)|
    ensures |Flatten(Descs(segs), n)| == |Flatten(Ranges(segs), n)|
       <==> forall i :: 0 <= i < n ==> NumPages(segs[i]) < 0x1_0000_0000
  {
    hide NumPages;
    if n > 0 { FlattenShorter(segs, n - 1); }
  }

  /** Expanding the descriptors of createGMR gives the list of createGMR2 if and only
      if every page count fits 32 bits. */
  lemma EncodingsAgreeIff(segs: seq<Segment>)
    requires forall i :: 0 <= i < |segs| ==> !TooHigh(segs[i].addr)
    ensures Low32(Flatten(Descs(segs), |segs|)) == Low32(Flatten(Ranges(segs), |segs|))
       <==> CountsFit(segs)
  {
    hide NumPages, TooHigh, Flatten, Descs, Ranges;
    FlattenShorter(segs, |segs|);
    if CountsFit(segs) { DescsExact(segs); }
  }

  lemma {:induction false} PageCountMonotone(segs: seq<Segment>, k: nat, n: nat)
    requires k <= n <= |segs|
    ensures PageCount(segs, k) <= PageCount(segs, n)
  {
    if k < n { PageCountMonotone(segs, k, n - 1); }
  }

  /** Writes the page numbers of one segment (the inner loop of createGMR2). */
  method PutPages(list: array<nat>, pos: nat, ppn: nat, n: nat)
    requires pos + n <= list.Length
    modifies list
    ensures list[..pos + n] == old(list[..pos]) + Low32(PagesOf(ppn, n))
  {
    var i := 0;
    while i < n
      invariant 0 <= i <= n
      invariant list[..pos] == old(list[..pos])
      invariant forall x :: pos <= x < pos + i ==> list[x] == (ppn + x - pos) % 0x1_0000_0000
    {
      list[pos + i] := (ppn + i) % 0x1_0000_0000;
      i := i + 1;
    }
    assert list[..pos + n] == list[..pos] + list[pos..pos + n];
    assert list[pos..pos + n] == Low32(PagesOf(ppn, n));
  }

  /** The first segment from i on that starts beyond 44 bits, or the number of segments. */
  function FirstHigh(segs: seq<Segment>, i: nat): (r: nat)
    requires i <= |segs|
    ensures i <= r <= |segs| && (forall k :: i <= k < r ==> !TooHigh(segs[k].addr))
    ensures r < |segs| ==> TooHigh(segs[r].addr)
    decreases |segs| - i
  {
    if i == |segs| || TooHigh(segs[i].addr) then i else FirstHigh(segs, i + 1)
  }

  /** createGMR2 up to the calls that define the region: the list of page numbers,
      cut to 32 bits.  `Overrun` stands for a write past the end of the list. */
  method CreateGMR2(segs: seq<Segment>, hasGmr2: bool, maxPages: nat) returns (status: Status, ppnList: seq<nat>)
    requires SegmentsOk(segs)
    ensures var numPages, high := (Sum(segs, |segs|) + 4095) / 4096, FirstHigh(segs, 0);
            status ==
              if !hasGmr2 then Unsupported
              else if segs == [] then BadArgument
              else if numPages > maxPages then Unsupported
              else if PageCount(segs, high) > numPages then Overrun
              else if high < |segs| then Unsupported
              else Success
    ensures status == Success ==>
              && |ppnList| == (Sum(segs, |segs|) + 4095) / 4096
              && ppnList == Low32(Flatten(Ranges(segs), |segs|))
              && (ppnList == Flatten(Ranges(segs), |segs|)
                  <==> forall i :: 0 <= i < |segs| ==> segs[i].addr / 4096 + NumPages(segs[i]) <= 0x1_0000_0000)
  {
    hide Flatten, Ranges, SegmentsOk, Waste, TooHigh, Sum, PageCount, NumPages, Low32, FirstHigh;
    ppnList := [];
    if !hasGmr2 { return Unsupported, ppnList; }
    ListFitsIff(segs);
    NoLengthIff(segs);
    var numPages := (Sum(segs, |segs|) + 4095) / 4096;
    if numPages == 0 { return BadArgument, ppnList; }
    if numPages > maxPages { return Unsupported, ppnList; }
    var list := new nat[numPages];
    FlattenLength(segs, |segs|);
    ListExactIff(segs, |segs|);
    status := FillPages(segs, list);
    if status == Success { ppnList := list[..]; }
  }

  /** Segments that start below 2^44 overrun the list exactly if a page or more is wasted. */
  lemma OverrunIff(segs: seq<Segment>)
    requires forall i :: 0 <= i < |segs| ==> !TooHigh(segs[i].addr)
    ensures PageCount(segs, FirstHigh(segs, 0)) > (Sum(segs, |segs|) + 4095) / 4096 <==> Waste(segs, |segs|) >= 4096
  {
    hide Waste, Sum, PageCount, TooHigh;
    ListFitsIff(segs);
  }

  /** The outer loop of createGMR2, on a list of no more than the pages there are. */
  method FillPages(segs: seq<Segment>, list: array<nat>) returns (status: Status)
    requires SegmentsOk(segs) && list.Length <= PageCount(segs, |segs|)
    modifies list
    ensures var high := FirstHigh(segs, 0);
            status == if PageCount(segs, high) > list.Length then Overrun
                      else if high < |segs| then Unsupported
                      else Success
    ensures status == Success ==> list[..] == Low32(Flatten(Ranges(segs), |segs|))
  {
    hide Flatten, Ranges, SegmentAt, SegmentsOk, TooHigh, PagesOf, Low32, Sum, FirstHigh;
    FlattenNone(Ranges(segs));
    SumNone(segs);
    assert list[..0] == [];
    var offset, pos := 0, 0;
    ghost var j, high := 0, FirstHigh(segs, 0);
    while true
      invariant j <= high && offset == Sum(segs, j) && pos == PageCount(segs, j) <= list.Length
      invariant list[..pos] == Low32(Flatten(Ranges(segs), j))
      decreases |segs| - j
    {
      SegmentAtBoundary(segs, 0, j);
      var s := SegmentAt(segs, 0, offset);
      if s.addr == 0 { break; }
      if TooHigh(s.addr) { return Unsupported; }
      SumNext(segs, j);
      FlattenNext(segs, j);
      offset := offset + s.length;
      var length := (s.length + s.addr % 4096 + 4095) / 4096;
      PageCountMonotone(segs, j + 1, high);
      if pos + length > list.Length { return Overrun; }
      PutPages(list, pos, s.addr / 4096, length);
      pos := pos + length;
      j := j + 1;
    }
    assert list[..pos] == list[..];
    status := Success;
  }

  lemma FlattenNone(descs: seq<Desc>)
    ensures Flatten(descs, 0) == [] && Low32(Flatten(descs, 0)) == []
  {
  }

  lemma FlattenNext(segs: seq<Segment>, j: nat)
    requires j < |segs|
    ensures Low32(Flatten(Ranges(segs), j + 1))
         == Low32(Flatten(Ranges(segs), j)) + Low32(PagesOf(segs[j].addr / 4096, NumPages(segs[j])))
  {
    hide NumPages, PagesOf, Low32;
    Low32Append(Flatten(Ranges(segs), j), PagesOf(segs[j].addr / 4096, NumPages(segs[j])));
  }

  lemma NoLengthIff(segs: seq<Segment>)
    requires SegmentsOk(segs)
    ensures Sum(segs, |segs|) == 0 <==> segs == []
  {
    if segs != [] { SumMonotone(segs, 0, |segs| - 1); }
  }
}
