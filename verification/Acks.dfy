/** ACK frames seen through the packet-number shift: mapAckPN, remapAck, appendAckFrame, rewriteAckFrames. */
module Acks {
  import opened Bytes
  import opened Varint
  import opened Framing

  // ---- the shift ----------------------------------------------------------

  /** The client's number behind a number on the wire, when packet `first` was split into `first` and `first + 1`. */
  function MapAckPN(pn: nat, first: nat): (n: nat)
  {
    if pn == first || pn == first + 1 then first
    else if pn > first + 1 then pn - 1
    else pn
  }

  /** The numbers on the wire that stand for the client's packet n. */
  predicate OnWire(n: nat, wire: nat, first: nat) {
    if n < first then wire == n
    else if n == first then wire == first || wire == first + 1
    else wire == n + 1
  }

  /** mapAckPN inverts the numbering: every wire number stands for exactly the client packet it is mapped to. */
  lemma MapInvertsNumbering(n: nat, wire: nat, first: nat)
    ensures OnWire(n, wire, first) <==> MapAckPN(wire, first) == n
  {
  }

  // ---- ranges -------------------------------------------------------------

  /** Descending, non-empty ranges with at least one number missing between neighbours (section 19.3.1 of RFC 9000). */
  ghost predicate Descending(ranges: seq<AckRange>) {
    && (forall i :: 0 <= i < |ranges| ==> ranges[i].smallest <= ranges[i].largest)
    && (forall i :: 0 < i < |ranges| ==> ranges[i].largest + 2 <= ranges[i - 1].smallest)
  }

  ghost predicate Acked(ranges: seq<AckRange>, n: nat) {
    exists i :: 0 <= i < |ranges| && ranges[i].smallest <= n <= ranges[i].largest
  }

  /** What remapAck does with one more range. */
  function RemapStep(mapped: seq<AckRange>, r: AckRange, first: nat): (m: seq<AckRange>)
  {
    var current := AckRange(MapAckPN(r.smallest, first), MapAckPN(r.largest, first));
    if |mapped| > 0 && current.largest + 1 >= mapped[|mapped| - 1].smallest then
      if current.smallest < mapped[|mapped| - 1].smallest then
        mapped[|mapped| - 1 := AckRange(current.smallest, mapped[|mapped| - 1].largest)]
      else mapped
    else mapped + [current]
  }

  function RemapRanges(ranges: seq<AckRange>, first: nat): (m: seq<AckRange>)
  {
    if ranges == [] then []
    else RemapStep(RemapRanges(ranges[..|ranges| - 1], first), ranges[|ranges| - 1], first)
  }

  function RemapAck(ack: AckFrame, first: nat): (a: AckFrame)
  {
    ack.(ranges := RemapRanges(ack.ranges, first))
  }

  method RemapAckLoop(ack: AckFrame, first: nat) returns (a: AckFrame)
    ensures a == RemapAck(ack, first)
  {
    var mapped: seq<AckRange> := [];
    for i := 0 to |ack.ranges|
      invariant mapped == RemapRanges(ack.ranges[..i], first)
    {
      assert ack.ranges[..i + 1][..i] == ack.ranges[..i];
      var r := ack.ranges[i];
      var current := AckRange(MapAckPN(r.smallest, first), MapAckPN(r.largest, first));
      if |mapped| > 0 && current.largest + 1 >= mapped[|mapped| - 1].smallest {
        if current.smallest < mapped[|mapped| - 1].smallest {
          mapped := mapped[|mapped| - 1 := AckRange(current.smallest, mapped[|mapped| - 1].largest)];
        }
        continue;
      }
      mapped := mapped + [current];
    }
    assert ack.ranges[..|ack.ranges|] == ack.ranges;
    a := ack.(ranges := mapped);
  }

  /** The neighbours i - 1 and i become adjacent: one ends just below the split packet's numbers, one starts just above. */
  ghost predicate ClosesAt(ranges: seq<AckRange>, i: nat, first: nat) {
    && 0 < i < |ranges|
    && ranges[i - 1].smallest == ranges[i].largest + 2
    && (ranges[i].largest + 1 == first || ranges[i].largest == first)
  }

  /** The shape of remapped ranges: still descending, ends mapped to ends. */
  lemma {:induction false} RemapShape(ranges: seq<AckRange>, first: nat)
    requires Descending(ranges) && ranges != []
    ensures var m := RemapRanges(ranges, first);
      && m != [] && |m| <= |ranges|
      && Descending(m)
      && m[0].largest == MapAckPN(ranges[0].largest, first)
      && m[|m| - 1].smallest == MapAckPN(ranges[|ranges| - 1].smallest, first)
  {
    var k := |ranges| - 1;
    if k > 0 {
      var init := ranges[..k];
      RemapShape(init, first);
      assert init[0] == ranges[0] && init[k - 1] == ranges[k - 1];
      StepShape(RemapRanges(init, first), ranges[k - 1], ranges[k], first);
    } else {
      assert RemapRanges(ranges[..0], first) == [];
    }
  }

  lemma StepShape(mapped: seq<AckRange>, previous: AckRange, r: AckRange, first: nat)
    requires Descending(mapped) && mapped != [] && mapped[|mapped| - 1].smallest == MapAckPN(previous.smallest, first)
    requires r.smallest <= r.largest && r.largest + 2 <= previous.smallest
    ensures var m := RemapStep(mapped, r, first);
      && |mapped| <= |m| <= |mapped| + 1 && Descending(m)
      && m[0].largest == mapped[0].largest && m[|m| - 1].smallest == MapAckPN(r.smallest, first)
  {
  }

  /** At most one pair of neighbours merges, and one does exactly when the shift closes its gap. */
  lemma {:induction false} RemapMerges(ranges: seq<AckRange>, first: nat)
    requires Descending(ranges) && ranges != []
    ensures |RemapRanges(ranges, first)| == |ranges| || |RemapRanges(ranges, first)| == |ranges| - 1
    ensures |RemapRanges(ranges, first)| == |ranges| - 1 <==> exists i :: ClosesAt(ranges, i, first)
  {
    var k := |ranges| - 1;
    if k > 0 {
      var init := ranges[..k];
      hide ClosesAt, RemapRanges;
      RemapMerges(init, first);
      if ClosesAt(ranges, k, first) {
        ClosesOnce(ranges, first, k);
      }
      ClosesInit(ranges, first);
      LastStepSize(ranges, first);
    }
  }

  lemma LastStepSize(ranges: seq<AckRange>, first: nat)
    requires Descending(ranges) && |ranges| > 1
    ensures var k := |ranges| - 1;
      |RemapRanges(ranges, first)| == |RemapRanges(ranges[..k], first)| + (if ClosesAt(ranges, k, first) then 0 else 1)
  {
    RemapShape(ranges[..|ranges| - 1], first);
  }

  lemma ClosesInit(ranges: seq<AckRange>, first: nat)
    requires ranges != []
    ensures forall i: nat {:trigger ClosesAt(ranges[..|ranges| - 1], i, first)} {:trigger ClosesAt(ranges, i, first)} ::
      i != |ranges| - 1 ==> (ClosesAt(ranges[..|ranges| - 1], i, first) <==> ClosesAt(ranges, i, first))
  {
  }

  lemma {:induction false} Falls(ranges: seq<AckRange>, i: nat, j: nat)
    requires Descending(ranges) && i < j < |ranges|
    ensures ranges[j].largest + 2 <= ranges[i].smallest
    decreases j - i
  {
    if i + 1 < j {
      Falls(ranges, i, j - 1);
    }
  }

  lemma ClosesOnce(ranges: seq<AckRange>, first: nat, k: nat)
    requires Descending(ranges) && ClosesAt(ranges, k, first)
    ensures forall i :: 0 <= i < k ==> !ClosesAt(ranges, i, first)
  {
    forall i | 0 < i < k
      ensures !ClosesAt(ranges, i, first)
    {
      Falls(ranges, i, k);
    }
  }

  /** A run of wire numbers is mapped onto a run of client numbers, with nothing skipped. */
  lemma RunImage(r: AckRange, first: nat, m: nat) returns (n: nat)
    requires MapAckPN(r.smallest, first) <= m <= MapAckPN(r.largest, first)
    requires r.smallest <= r.largest
    ensures r.smallest <= n <= r.largest && MapAckPN(n, first) == m
  {
    n := if m < first then m else if m > first then m + 1 else if r.smallest <= first then first else first + 1;
  }

  ghost predicate AckedImage(ranges: seq<AckRange>, first: nat, m: nat) {
    exists n :: Acked(ranges, n) && MapAckPN(n, first) == m
  }

  /** The numbers acknowledged after remapping are exactly the images of those acknowledged before. */
  lemma {:induction false} RemapExact(ranges: seq<AckRange>, first: nat, m: nat)
    requires Descending(ranges)
    ensures Acked(RemapRanges(ranges, first), m) <==> AckedImage(ranges, first, m)
  {
    if ranges == [] {
    } else {
      var k := |ranges| - 1;
      var init := ranges[..k];
      RemapExact(init, first, m);
      if init != [] {
        RemapShape(init, first);
      }
      StepImage(RemapRanges(init, first), ranges[k], first, m,
                if k > 0 then MapAckPN(ranges[k - 1].smallest, first) else 0);
      ImageAppend(init, ranges[k], first, m);
      assert init + [ranges[k]] == ranges;
    }
  }

  lemma ImageAppend(init: seq<AckRange>, r: AckRange, first: nat, m: nat)
    requires r.smallest <= r.largest
    ensures AckedImage(init + [r], first, m)
       <==> AckedImage(init, first, m) || MapAckPN(r.smallest, first) <= m <= MapAckPN(r.largest, first)
  {
    AckedAppend(init, r);
    var all := init + [r];
    if AckedImage(init, first, m) {
      var n :| Acked(init, n) && MapAckPN(n, first) == m;
      assert Acked(all, n);
    }
    if MapAckPN(r.smallest, first) <= m <= MapAckPN(r.largest, first) {
      var n := RunImage(r, first, m);
      assert Acked(all, n);
    }
  }

  lemma AckedAppend(ranges: seq<AckRange>, r: AckRange)
    ensures forall n: nat {:trigger Acked(ranges, n)} {:trigger Acked(ranges + [r], n)} ::
      Acked(ranges + [r], n) <==> Acked(ranges, n) || r.smallest <= n <= r.largest
  {
    var all := ranges + [r];
    forall n: nat
      ensures Acked(all, n) <==> Acked(ranges, n) || r.smallest <= n <= r.largest
    {
      if i :| 0 <= i < |ranges| && ranges[i].smallest <= n <= ranges[i].largest {
        assert all[i].smallest <= n <= all[i].largest;
      }
      if r.smallest <= n <= r.largest {
        assert all[|ranges|].smallest <= n <= all[|ranges|].largest;
      }
    }
  }

  /** One step adds exactly the image of its range, merged or not. */
  lemma StepImage(mapped: seq<AckRange>, r: AckRange, first: nat, m: nat, last: nat)
    requires r.smallest <= r.largest && Descending(mapped)
    requires mapped != [] ==> mapped[|mapped| - 1].smallest == last && MapAckPN(r.largest, first) + 1 <= last
    ensures Acked(RemapStep(mapped, r, first), m)
       <==> Acked(mapped, m) || MapAckPN(r.smallest, first) <= m <= MapAckPN(r.largest, first)
  {
    var current := AckRange(MapAckPN(r.smallest, first), MapAckPN(r.largest, first));
    var after := RemapStep(mapped, r, first);
    AckedAppend(mapped, current);
    if mapped != [] && current.largest + 1 >= last {
      var k := |mapped| - 1;
      assert after == mapped[..k] + [AckRange(current.smallest, mapped[k].largest)];
      assert mapped == mapped[..k] + [mapped[k]];
      AckedAppend(mapped[..k], AckRange(current.smallest, mapped[k].largest));
      AckedAppend(mapped[..k], mapped[k]);
    }
  }

  // ---- printing -----------------------------------------------------------

  function After(done: bytes, more: Option<bytes>): (r: Option<bytes>)
  {
    match more
    case None => None
    case Some(m) => Some(done + m)
  }

  lemma AfterStep(done: bytes, g: bytes, more: Option<bytes>)
    ensures After(done, After(g, more)) == After(done + g, more)
  {
    if more.Some? {
      assert done + (g + more.value) == done + g + more.value;
    }
  }

  function PrintRanges(previous: AckRange, ranges: seq<AckRange>): (b: Option<bytes>)
    decreases |ranges|
  {
    if ranges == [] then Some([])
    else if ranges[0].largest + 2 > previous.smallest || ranges[0].smallest > ranges[0].largest then None
    else
      match PrintRanges(ranges[0], ranges[1..])
      case None => None
      case Some(more) =>
        Some(WriteVarint(previous.smallest - ranges[0].largest - 2)
             + WriteVarint(ranges[0].largest - ranges[0].smallest) + more)
  }

  function PrintValues(values: seq<nat>): (b: bytes)
  {
    if values == [] then [] else WriteVarint(values[0]) + PrintValues(values[1..])
  }

  /** The range count, the first range and the ranges behind it. */
  function PrintAckRanges(ranges: seq<AckRange>): (b: Option<bytes>)
    requires |ranges| > 0 && ranges[0].smallest <= ranges[0].largest
  {
    match PrintRanges(ranges[0], ranges[1..])
    case None => None
    case Some(more) => Some(WriteVarint(|ranges| - 1) + WriteVarint(ranges[0].largest - ranges[0].smallest) + more)
  }

  function PrintEcn(ack: AckFrame): (b: bytes) {
    if ack.frameType == 0x03 then PrintValues(ack.ecn) else []
  }

  function PrintAck(ack: AckFrame): (b: Option<bytes>)
  {
    if |ack.ranges| == 0 || ack.ranges[0].smallest > ack.ranges[0].largest then None
    else
      match PrintAckRanges(ack.ranges)
      case None => None
      case Some(ranges) =>
        Some([ack.frameType] + WriteVarint(ack.ranges[0].largest) + WriteVarint(ack.delay) + ranges + PrintEcn(ack))
  }

  /** What parseAckFrame can return, and what appendAckFrame prints faithfully. */
  ghost predicate ValidAck(ack: AckFrame) {
    && (ack.frameType == 0x02 || ack.frameType == 0x03)
    && ack.ranges != [] && |ack.ranges| <= MAX_VARINT
    && Descending(ack.ranges)
    && ack.ranges[0].largest < MAX_VARINT
    && ack.delay < MAX_VARINT
    && |ack.ecn| == 3 && (forall i :: 0 <= i < 3 ==> ack.ecn[i] < MAX_VARINT)
    && (ack.frameType == 0x02 ==> ack.ecn == [0, 0, 0])
  }

  /** Each range lies below the one before it, the first one below `previous`. */
  ghost predicate Chain(previous: AckRange, ranges: seq<AckRange>)
    decreases |ranges|
  {
    ranges != [] ==>
      && ranges[0].smallest <= ranges[0].largest
      && ranges[0].largest + 2 <= previous.smallest
      && Chain(ranges[0], ranges[1..])
  }

  lemma {:induction false} ChainDescends(previous: AckRange, ranges: seq<AckRange>)
    requires previous.smallest <= previous.largest && Chain(previous, ranges)
    ensures Descending([previous] + ranges)
    decreases |ranges|
  {
    if ranges != [] {
      ChainDescends(ranges[0], ranges[1..]);
      var all := [previous] + ranges;
      var tail := [ranges[0]] + ranges[1..];
      assert tail == ranges;
      assert forall i {:trigger all[i]} :: 0 < i < |all| ==> all[i] == ranges[i - 1];
    }
  }

  lemma {:induction false} DescendingChains(ranges: seq<AckRange>)
    requires Descending(ranges) && ranges != []
    ensures Chain(ranges[0], ranges[1..])
    decreases |ranges|
  {
    if |ranges| > 1 {
      DescendingChains(ranges[1..]);
    }
  }

  lemma {:induction false} ParsedRangesChain(data: bytes, off: nat, count: nat, first: AckRange)
    requires ParseRanges(data, off, count, first.smallest).Some?
    ensures Chain(first, ParseRanges(data, off, count, first.smallest).value.ranges)
    decreases count
  {
    hide VarintAt;
    if count > 0 {
      var gap := VarintAt(data, off).value;
      var span := VarintAt(data, gap.next).value;
      var largest := first.smallest - gap.value - 2;
      var range := AckRange(largest - span.value, largest);
      ParsedRangesChain(data, span.next, count - 1, range);
      var rest := ParseRanges(data, span.next, count - 1, range.smallest).value.ranges;
      assert ([range] + rest)[1..] == rest;
    }
  }

  lemma ParsedAckIsValid(data: bytes, off: nat, frameType: byte)
    requires frameType == 0x02 || frameType == 0x03
    requires ParseAck(data, off, frameType).Some?
    ensures ValidAck(ParseAck(data, off, frameType).value.ack)
    ensures ParseAck(data, off, frameType).value.ack.frameType == frameType
  {
    hide VarintAt, VarintsAt;
    var largest := VarintAt(data, off).value;
    var delay := VarintAt(data, largest.next).value;
    var rangeCount := VarintAt(data, delay.next).value;
    var first := VarintAt(data, rangeCount.next).value;
    var range := AckRange(largest.value - first.value, largest.value);
    ParsedRangesChain(data, first.next, rangeCount.value, range);
    ChainDescends(range, ParseRanges(data, first.next, rangeCount.value, range.smallest).value.ranges);
  }

  /** Printed ranges are read back, wherever they stand. */
  lemma {:induction false} PrintedRangesParse(pre: bytes, previous: AckRange, ranges: seq<AckRange>, rest: bytes)
    requires Chain(previous, ranges) && previous.smallest < MAX_VARINT
    ensures PrintRanges(previous, ranges).Some?
    ensures var b := PrintRanges(previous, ranges).value;
      ParseRanges(pre + b + rest, |pre|, |ranges|, previous.smallest) == Some(RangesAt(ranges, |pre| + |b|))
    ensures |PrintRanges(previous, ranges).value| >= 2 * |ranges|
    decreases |ranges|
  {
    hide *;
    if ranges == [] {
      NoRangesParse(pre, previous, rest);
    } else {
      ChainHead(previous, ranges);
      var w := PrintRange(previous, ranges[0]);
      PrintedRangesParse(pre + w, ranges[0], ranges[1..], rest);
      PrintedRangeStep(pre, previous, ranges, PrintRanges(ranges[0], ranges[1..]).value, rest);
    }
  }

  lemma ChainHead(previous: AckRange, ranges: seq<AckRange>)
    requires Chain(previous, ranges) && ranges != []
    ensures ranges[0].smallest <= ranges[0].largest && ranges[0].largest + 2 <= previous.smallest
    ensures Chain(ranges[0], ranges[1..])
  {
  }

  lemma NoRangesParse(pre: bytes, previous: AckRange, rest: bytes)
    ensures PrintRanges(previous, []) == Some([])
    ensures ParseRanges(pre + [] + rest, |pre|, 0, previous.smallest) == Some(RangesAt([], |pre|))
  {
  }

  /** One printed range in front of printed ranges that are read back. */
  lemma PrintedRangeStep(pre: bytes, previous: AckRange, ranges: seq<AckRange>, more: bytes, rest: bytes)
    requires ranges != [] && ranges[0].smallest <= ranges[0].largest
    requires ranges[0].largest + 2 <= previous.smallest < MAX_VARINT
    requires PrintRanges(ranges[0], ranges[1..]) == Some(more)
    requires var front := pre + PrintRange(previous, ranges[0]);
      ParseRanges(front + more + rest, |front|, |ranges| - 1, ranges[0].smallest)
      == Some(RangesAt(ranges[1..], |front| + |more|))
    ensures var w := PrintRange(previous, ranges[0]);
      PrintRanges(previous, ranges) == Some(w + more)
      && ParseRanges(pre + (w + more) + rest, |pre|, |ranges|, previous.smallest)
         == Some(RangesAt(ranges, |pre| + |w + more|))
  {
    hide ParseRanges, PrintRanges, PrintRange, WriteVarint, VarintLen;
    var w := PrintRange(previous, ranges[0]);
    OneRangePrinted(previous, ranges);
    OneRangeParses(pre, previous, ranges[0], more + rest, |ranges| - 1);
    RegroupFour(pre, w, more, rest);
    assert [ranges[0]] + ranges[1..] == ranges;
  }

  lemma RegroupFour(pre: bytes, w: bytes, more: bytes, rest: bytes)
    ensures pre + (w + more) + rest == pre + w + (more + rest)
    ensures pre + w + more + rest == pre + w + (more + rest)
  {
  }

  /** The gap and the span of one range. */
  function PrintRange(previous: AckRange, r: AckRange): (b: bytes)
    requires r.smallest <= r.largest && r.largest + 2 <= previous.smallest
    ensures |b| >= 2
  {
    WriteVarint(previous.smallest - r.largest - 2) + WriteVarint(r.largest - r.smallest)
  }

  lemma OneRangePrinted(previous: AckRange, ranges: seq<AckRange>)
    requires ranges != [] && ranges[0].smallest <= ranges[0].largest && ranges[0].largest + 2 <= previous.smallest
    requires PrintRanges(ranges[0], ranges[1..]).Some?
    ensures PrintRanges(previous, ranges) == Some(PrintRange(previous, ranges[0]) + PrintRanges(ranges[0], ranges[1..]).value)
  {
    hide WriteVarint;
  }

  lemma OneRangeParses(pre: bytes, previous: AckRange, r: AckRange, more: bytes, count: nat)
    requires r.smallest <= r.largest && r.largest + 2 <= previous.smallest < MAX_VARINT
    ensures var w := PrintRange(previous, r);
      ParseRanges(pre + w + more, |pre|, count + 1, previous.smallest) ==
        match ParseRanges(pre + w + more, |pre + w|, count, r.smallest)
        case None => None
        case Some(m) => Some(RangesAt([r] + m.ranges, m.next))
  {
    hide VarintAt, WriteVarint, VarintLen;
    var gap, span := previous.smallest - r.largest - 2, r.largest - r.smallest;
    var w1, w2 := WriteVarint(gap), WriteVarint(span);
    TwoVarintsWritten(pre, gap, span, more);
    assert pre + (w1 + w2) + more == pre + w1 + w2 + more;
    assert AckRange(r.smallest, r.largest) == r;
  }

  lemma Regroup(pre: bytes, a: bytes, b: bytes, more: bytes, rest: bytes)
    ensures pre + (a + b + more) + rest == pre + a + b + (more + rest)
    ensures pre + a + b + more + rest == pre + a + b + (more + rest)
  {
  }

  lemma {:induction false} PrintedValuesParse(pre: bytes, values: seq<nat>)
    requires forall i :: 0 <= i < |values| ==> values[i] < MAX_VARINT
    ensures VarintsAt(pre + PrintValues(values), |pre|, |values|)
         == Some(ValuesAt(values, |pre| + |PrintValues(values)|))
    decreases |values|
  {
    hide VarintAt, WriteVarint, VarintLen;
    if values != [] {
      var w := WriteVarint(values[0]);
      assert PrintValues(values) == w + PrintValues(values[1..]);
      PrintedValuesParse(pre + w, values[1..]);
      var more := PrintValues(values[1..]);
      assert pre + (w + more) == pre + w + more;
      VarintAtWritten(pre, values[0], more);
      assert [values[0]] + values[1..] == values;
    } else {
      assert pre + [] == pre;
    }
  }

  lemma PrintedAckRangesParse(pre: bytes, ranges: seq<AckRange>, rest: bytes)
    requires ranges != [] && |ranges| <= MAX_VARINT && Descending(ranges) && ranges[0].largest < MAX_VARINT
    ensures PrintAckRanges(ranges).Some?
    ensures var b := PrintAckRanges(ranges).value;
      ParseAckRanges(pre + b + rest, |pre|, ranges[0].largest) == Some(RangesAt(ranges, |pre| + |b|))
  {
    hide VarintAt, WriteVarint, VarintLen, ParseRanges, PrintRanges;
    var r, tail := ranges[0], ranges[1..];
    assert [r] + tail == ranges;
    DescendingChains(ranges);
    var w1, w2 := WriteVarint(|tail|), WriteVarint(r.largest - r.smallest);
    PrintedRangesParse(pre + w1 + w2, r, tail, rest);
    var more := PrintRanges(r, tail).value;
    Regroup(pre, w1, w2, more, rest);
    TwoVarintsWritten(pre, |tail|, r.largest - r.smallest, more + rest);
    assert AckRange(r.largest - (r.largest - r.smallest), r.largest) == r;
  }

  /** appendAckFrame succeeds on every valid ACK, and parseAckFrame gives that ACK back. */
  lemma PrintedAckParses(ack: AckFrame)
    requires ValidAck(ack)
    ensures PrintAck(ack).Some?
    ensures var b := PrintAck(ack).value;
      |b| > 0 && b[0] == ack.frameType && ParseAck(b, 1, ack.frameType) == Some(AckAt(ack, |b|))
  {
    hide VarintAt, VarintsAt, WriteVarint, VarintLen, ParseAckRanges, PrintAckRanges, PrintValues;
    var h := [ack.frameType];
    var largest := ack.ranges[0].largest;
    var pre := h + WriteVarint(largest) + WriteVarint(ack.delay);
    var ecn := PrintEcn(ack);
    PrintedAckRangesParse(pre, ack.ranges, ecn);
    var ranges := PrintAckRanges(ack.ranges).value;
    var b := pre + ranges + ecn;
    assert b == h + WriteVarint(largest) + WriteVarint(ack.delay) + (ranges + ecn);
    TwoVarintsWritten(h, largest, ack.delay, ranges + ecn);
    if ack.frameType == 0x03 {
      PrintedValuesParse(pre + ranges, ack.ecn);
    }
  }

  /** The ranges behind the first one, up to one that is out of order. */
  method AppendRanges(dst: bytes, ranges: seq<AckRange>) returns (res: Option<bytes>)
    requires |ranges| > 0 && forall j :: 0 <= j < |ranges| ==> ranges[j].smallest <= ranges[j].largest
    ensures res == After(dst, PrintRanges(ranges[0], ranges[1..]))
  {
    hide WriteVarint;
    var out := dst;
    for i := 1 to |ranges|
      invariant After(dst, PrintRanges(ranges[0], ranges[1..])) == After(out, PrintRanges(ranges[i - 1], ranges[i..]))
    {
      var previous, current := ranges[i - 1], ranges[i];
      assert ranges[i..][1..] == ranges[i + 1..];
      if current.largest + 2 > previous.smallest {
        return None;
      }
      var gap, span := WriteVarint(previous.smallest - current.largest - 2), WriteVarint(current.largest - current.smallest);
      AfterStep(out, gap + span, PrintRanges(current, ranges[i + 1..]));
      assert out + gap + span == out + (gap + span);
      out := out + gap + span;
    }
    assert ranges[|ranges|..] == [];
    assert out + [] == out;
    return Some(out);
  }

  method AppendAckFrame(dst: bytes, ack: AckFrame) returns (res: Option<bytes>)
    ensures res == After(dst, PrintAck(ack))
  {
    hide WriteVarint;
    if |ack.ranges| == 0 {
      return None;
    }
    for i := 0 to |ack.ranges|
      invariant forall j :: 0 <= j < i ==> ack.ranges[j].smallest <= ack.ranges[j].largest
    {
      if ack.ranges[i].smallest > ack.ranges[i].largest {
        if i > 0 {
          BadRangeNotPrinted(ack.ranges[0], ack.ranges[1..], i - 1);
        }
        return None;
      }
    }
    var r := ack.ranges[0];
    var out := dst + [ack.frameType] + WriteVarint(r.largest) + WriteVarint(ack.delay);
    ghost var head := [ack.frameType] + WriteVarint(r.largest) + WriteVarint(ack.delay);
    ghost var start := out + WriteVarint(|ack.ranges| - 1) + WriteVarint(r.largest - r.smallest);
    assert out == dst + head;
    out := out + WriteVarint(|ack.ranges| - 1) + WriteVarint(r.largest - r.smallest);
    PrintedShape(dst, head, ack, PrintRanges(r, ack.ranges[1..]), start);
    var printed := AppendRanges(out, ack.ranges);
    if printed.None? {
      return None;
    }
    out := printed.value;
    if ack.frameType == 0x03 {
      out := AppendValues(out, ack.ecn);
      return Some(out);
    }
    return Some(out);
  }

  lemma PrintedShape(dst: bytes, head: bytes, ack: AckFrame, more: Option<bytes>, start: bytes)
    requires |ack.ranges| > 0 && ack.ranges[0].smallest <= ack.ranges[0].largest
    requires head == [ack.frameType] + WriteVarint(ack.ranges[0].largest) + WriteVarint(ack.delay)
    requires start == dst + head + WriteVarint(|ack.ranges| - 1)
                      + WriteVarint(ack.ranges[0].largest - ack.ranges[0].smallest)
    requires more == PrintRanges(ack.ranges[0], ack.ranges[1..])
    ensures After(dst, PrintAck(ack))
         == match more
            case None => None
            case Some(m) => Some(start + m + PrintEcn(ack))
    ensures ack.frameType != 0x03 ==> forall m: bytes {:trigger start + m} :: start + m + PrintEcn(ack) == start + m
  {
    hide WriteVarint, PrintRanges, PrintValues;
    if more.Some? {
      var w3, w4 := WriteVarint(|ack.ranges| - 1), WriteVarint(ack.ranges[0].largest - ack.ranges[0].smallest);
      assert PrintAckRanges(ack.ranges) == Some(w3 + w4 + more.value);
      assert dst + (head + (w3 + w4 + more.value) + PrintEcn(ack)) == start + more.value + PrintEcn(ack);
    }
  }

  method AppendValues(dst: bytes, values: seq<nat>) returns (out: bytes)
    ensures out == dst + PrintValues(values)
  {
    out := dst;
    for i := 0 to |values|
      invariant dst + PrintValues(values) == out + PrintValues(values[i..])
    {
      assert values[i..][0] == values[i] && values[i..][1..] == values[i + 1..];
      ghost var more := PrintValues(values[i + 1..]);
      assert out + (WriteVarint(values[i]) + more) == out + WriteVarint(values[i]) + more;
      out := out + WriteVarint(values[i]);
    }
    assert PrintValues(values[|values|..]) == [];
  }

  lemma {:induction false} BadRangeNotPrinted(previous: AckRange, ranges: seq<AckRange>, i: nat)
    requires i < |ranges| && ranges[i].smallest > ranges[i].largest
    ensures PrintRanges(previous, ranges).None?
    decreases |ranges|
  {
    if i > 0 {
      BadRangeNotPrinted(ranges[0], ranges[1..], i - 1);
    }
  }

  // ---- rewriting a payload ------------------------------------------------

  predicate IsAck(f: bytes) {
    f != [] && (f[0] == 0x02 || f[0] == 0x03)
  }

  /** The ACK carried by a whole ACK frame. */
  function AckOf(f: bytes): (ack: AckFrame)
    requires Whole(f) && IsAck(f)
  {
    ParseAck(f, 1, f[0]).value.ack
  }

  /** The frame that replaces frame f. */
  function RewriteFrame(f: bytes, first: nat): (g: Option<bytes>)
    requires Whole(f)
  {
    if IsAck(f) then PrintAck(RemapAck(AckOf(f), first)) else Some(f)
  }

  function RewriteAckFrames(plaintext: bytes, first: nat): (out: Option<bytes>)
  {
    if plaintext == [] then Some([])
    else
      match FrameEnd(plaintext, 0)
      case None => None
      case Some(n) =>
        FrameCut(plaintext, 0);
        match RewriteFrame(plaintext[..n], first)
        case None => None
        case Some(g) =>
          match RewriteAckFrames(plaintext[n..], first)
          case None => None
          case Some(more) => Some(g + more)
  }

  /** g is frame f seen through the shift: an ACK remapped, anything else the same bytes. */
  ghost predicate Rewritten(f: bytes, g: bytes, first: nat)
    requires Whole(f) && Whole(g)
  {
    if IsAck(f) then IsAck(g) && AckOf(g) == RemapAck(AckOf(f), first) else g == f
  }

  lemma RemapKeepsValid(ack: AckFrame, first: nat)
    requires ValidAck(ack)
    ensures ValidAck(RemapAck(ack, first))
  {
    RemapShape(ack.ranges, first);
  }

  /** A whole ACK frame holds a valid ACK that fills it. */
  lemma WholeAck(f: bytes)
    requires Whole(f) && IsAck(f)
    ensures ParseAck(f, 1, f[0]) == Some(AckAt(AckOf(f), |f|))
    ensures ValidAck(AckOf(f)) && AckOf(f).frameType == f[0]
  {
    hide ParseAck;
    ParsedAckIsValid(f, 1, f[0]);
  }

  /** Printing the remapped ACK never fails and gives a whole frame of the same type. */
  lemma RewriteFrameExact(f: bytes, first: nat)
    requires Whole(f)
    ensures RewriteFrame(f, first).Some?
    ensures var g := RewriteFrame(f, first).value;
      Whole(g) && g[0] == f[0] && Rewritten(f, g, first)
  {
    hide ParseAck, PrintAck;
    FirstByte(f);
    if IsAck(f) {
      WholeAck(f);
      RemapKeepsValid(AckOf(f), first);
      PrintedAckParses(RemapAck(AckOf(f), first));
    }
  }

  function RewriteEach(fs: seq<bytes>, first: nat): (gs: seq<bytes>)
    requires forall i :: 0 <= i < |fs| ==> Whole(fs[i])
    ensures |gs| == |fs|
    ensures forall i :: 0 <= i < |fs| ==> RewriteFrame(fs[i], first) == Some(gs[i])
  {
    if fs == [] then []
    else
      RewriteFrameExact(fs[0], first);
      [RewriteFrame(fs[0], first).value] + RewriteEach(fs[1..], first)
  }

  lemma {:induction false} RewriteIsFramewise(plaintext: bytes, first: nat)
    ensures RewriteAckFrames(plaintext, first).Some? <==> Frames(plaintext).Some?
    ensures Frames(plaintext).Some? ==>
      RewriteAckFrames(plaintext, first) == Some(Concat(RewriteEach(Frames(plaintext).value, first)))
    decreases |plaintext|
  {
    hide FrameEnd, RewriteFrame;
    if plaintext == [] {
    } else if FrameEnd(plaintext, 0).Some? {
      var n := FrameEnd(plaintext, 0).value;
      FrameCut(plaintext, 0);
      RewriteFrameExact(plaintext[..n], first);
      RewriteIsFramewise(plaintext[n..], first);
      if Frames(plaintext).Some? {
        var fs := Frames(plaintext).value;
        assert fs[0] == plaintext[..n] && fs[1..] == Frames(plaintext[n..]).value;
      }
    }
  }

  /**
   * rewriteAckFrames fails exactly on payloads that do not parse. What it returns parses frame by frame:
   * each ACK is the remapped ACK, each other frame is unchanged.
   */
  lemma RewriteExact(plaintext: bytes, first: nat)
    ensures RewriteAckFrames(plaintext, first).Some? <==> Frames(plaintext).Some?
    ensures Frames(plaintext).Some? ==>
      var fs := Frames(plaintext).value;
      var out := RewriteAckFrames(plaintext, first).value;
      && Frames(out).Some?
      && var gs := Frames(out).value;
      && |gs| == |fs|
      && forall i :: 0 <= i < |fs| ==> Whole(gs[i]) && gs[i][0] == fs[i][0] && Rewritten(fs[i], gs[i], first)
  {
    RewriteIsFramewise(plaintext, first);
    if Frames(plaintext).Some? {
      hide Whole, FrameEnd, RewriteFrame, Rewritten, OpenEnded;
      var fs := Frames(plaintext).value;
      var gs := RewriteEach(fs, first);
      forall i | 0 <= i < |fs|
        ensures Whole(gs[i]) && gs[i][0] == fs[i][0] && Rewritten(fs[i], gs[i], first)
      {
        RewriteFrameExact(fs[i], first);
      }
      assert WellFramed(gs);
      FramesOfConcat(gs);
    }
  }

  method RewriteAckFramesLoop(plaintext: bytes, first: nat) returns (r: Option<bytes>)
    ensures r == RewriteAckFrames(plaintext, first)
  {
    hide FrameEnd, RewriteFrame, PrintAck, ParseAck;
    var out: bytes := [];
    var off := 0;
    ghost var all := RewriteAckFrames(plaintext, first);
    assert plaintext[0..] == plaintext;
    assert all.Some? ==> all.value == [] + all.value;
    while off < |plaintext|
      invariant off <= |plaintext|
      invariant all == After(out, RewriteAckFrames(plaintext[off..], first))
      decreases |plaintext| - off
    {
      var frameType := plaintext[off];
      RewriteStep(plaintext, off, first);
      ghost var before := out;
      if frameType == 0x02 || frameType == 0x03 {
        var ack := ParseAckFrame(plaintext, off + 1, frameType);
        if ack.None? {
          return None;
        }
        var mapped := RemapAckLoop(ack.value.ack, first);
        var printed := AppendAckFrame(out, mapped);
        if printed.None? {
          return None;
        }
        out := printed.value;
        off := ack.value.next;
      } else {
        var end := FrameEnd(plaintext, off);
        if end.None? {
          return None;
        }
        out := out + plaintext[off..end.value];
        off := end.value;
      }
      AfterStep(before, out[|before|..], RewriteAckFrames(plaintext[off..], first));
    }
    assert plaintext[|plaintext|..] == [];
    assert out + [] == out;
    return Some(out);
  }

  /** One turn of the loop, seen from the start of its frame. */
  lemma RewriteStep(plaintext: bytes, off: nat, first: nat)
    requires off < |plaintext|
    ensures var t := plaintext[off];
      RewriteAckFrames(plaintext[off..], first) ==
        if t == 0x02 || t == 0x03 then
          match ParseAck(plaintext, off + 1, t)
          case None => None
          case Some(a) =>
            match PrintAck(RemapAck(a.ack, first))
            case None => None
            case Some(g) => After(g, RewriteAckFrames(plaintext[a.next..], first))
        else
          match FrameEnd(plaintext, off)
          case None => None
          case Some(end) => After(plaintext[off..end], RewriteAckFrames(plaintext[end..], first))
  {
    hide PrintAck, ParseAck, FrameEnd, Whole, AckOf;
    var t := plaintext[off];
    var s := plaintext[off..];
    if t == 0x02 || t == 0x03 {
      AckEnds(plaintext, off);
    }
    if FrameEnd(plaintext, off).None? {
      FrameCutNone(plaintext, off);
    } else {
      FrameCut(plaintext, off);
      var end := FrameEnd(plaintext, off).value;
      assert s[..end - off] == plaintext[off..end] && s[end - off..] == plaintext[end..];
      assert plaintext[off..end][0] == t;
    }
  }

  /** An ACK frame ends where its fields do, and cut out it has the same fields. */
  lemma AckEnds(plaintext: bytes, off: nat)
    requires off < |plaintext| && (plaintext[off] == 0x02 || plaintext[off] == 0x03)
    ensures var a := ParseAck(plaintext, off + 1, plaintext[off]);
      && FrameEnd(plaintext, off) == (if a.Some? then Some(a.value.next) else None)
      && (a.Some? ==>
            && off < a.value.next <= |plaintext|
            && Whole(plaintext[off..a.value.next])
            && IsAck(plaintext[off..a.value.next])
            && AckOf(plaintext[off..a.value.next]) == a.value.ack)
  {
    hide ParseAck;
    if FrameEnd(plaintext, off).Some? {
      FrameCut(plaintext, off);
      var end := FrameEnd(plaintext, off).value;
      var f := plaintext[off..end];
      AckLocal(plaintext, f, -(off as int), off + 1, end, plaintext[off]);
    }
  }
}
