/** How long rewritten ACK frames are: below packet number 2^30 the rewriting never lengthens a payload. */
module AckSize {
  import opened Bytes
  import opened Varint
  import opened Framing
  import opened Acks

  const FIT_BOUND: nat := 0x4000_0000

  function Minus(a: nat, b: nat): (n: nat) {
    if a < b then 0 else a - b
  }

  function Span(r: AckRange): (n: nat) {
    Minus(r.largest, r.smallest)
  }

  function Gap(above: AckRange, below: AckRange): (n: nat) {
    Minus(above.smallest, below.largest + 2)
  }

  /** Bytes of the first span and of every gap and span behind it, last range first. */
  ghost function Cost(ranges: seq<AckRange>): (n: nat)
    requires ranges != []
  {
    var k := |ranges| - 1;
    if k == 0 then VarintLen(Span(ranges[0]))
    else Cost(ranges[..k]) + VarintLen(Gap(ranges[k - 1], ranges[k])) + VarintLen(Span(ranges[k]))
  }

  /** Printing one more range adds its gap and its span. */
  lemma {:induction false} PrintRangesSnoc(previous: AckRange, ranges: seq<AckRange>, last: AckRange)
    requires Chain(previous, ranges + [last])
    ensures Chain(previous, ranges)
    ensures PrintRanges(previous, ranges + [last]).Some? && PrintRanges(previous, ranges).Some?
    ensures var before := if ranges == [] then previous else ranges[|ranges| - 1];
      && last.smallest <= last.largest && last.largest + 2 <= before.smallest
      && |PrintRanges(previous, ranges + [last]).value|
         == |PrintRanges(previous, ranges).value|
            + VarintLen(Gap(before, last)) + VarintLen(Span(last))
    decreases |ranges|
  {
    hide WriteVarint, VarintLen;
    var all := ranges + [last];
    if ranges == [] {
      assert all[1..] == [];
    } else {
      assert all[0] == ranges[0] && all[1..] == ranges[1..] + [last];
      PrintRangesSnoc(ranges[0], ranges[1..], last);
    }
  }

  lemma {:induction false} CostIsPrinted(ranges: seq<AckRange>)
    requires ranges != [] && Chain(ranges[0], ranges[1..])
    ensures PrintRanges(ranges[0], ranges[1..]).Some?
    ensures VarintLen(Span(ranges[0])) + |PrintRanges(ranges[0], ranges[1..]).value| == Cost(ranges)
  {
    hide VarintLen, WriteVarint;
    var k := |ranges| - 1;
    if k > 0 {
      var init := ranges[..k];
      assert ranges[1..] == init[1..] + [ranges[k]];
      PrintRangesSnoc(ranges[0], init[1..], ranges[k]);
      CostIsPrinted(init);
    }
  }

  /** The merged span is paid for by the gap and the span that disappear. */
  lemma MergedSpan(span: nat, below: nat)
    requires span + below + 1 < FIT_BOUND
    ensures VarintLen(span + below + 1) <= VarintLen(span) + VarintLen(0) + VarintLen(below)
  {
  }

  lemma {:induction false} RemapCost(ranges: seq<AckRange>, first: nat)
    requires Descending(ranges) && ranges != [] && ranges[0].largest < FIT_BOUND
    ensures RemapRanges(ranges, first) != [] && Cost(RemapRanges(ranges, first)) <= Cost(ranges)
  {
    hide VarintLen, RemapStep, Descending;
    var k := |ranges| - 1;
    if k == 0 {
      OneRangeCost(ranges, first);
    } else {
      var init := ranges[..k];
      InitDescends(ranges);
      RemapCost(init, first);
      RemapShape(init, first);
      RemapShape(ranges, first);
      StepCost(RemapRanges(init, first), ranges[k - 1], ranges[k], first);
      assert RemapRanges(ranges, first) == RemapStep(RemapRanges(init, first), ranges[k], first);
    }
  }

  lemma InitDescends(ranges: seq<AckRange>)
    requires Descending(ranges) && |ranges| > 1
    ensures var k := |ranges| - 1;
      && Descending(ranges[..k]) && ranges[k].smallest <= ranges[k].largest
      && ranges[k].largest + 2 <= ranges[k - 1].smallest
  {
  }

  lemma OneRangeCost(ranges: seq<AckRange>, first: nat)
    requires |ranges| == 1 && Descending(ranges)
    ensures RemapRanges(ranges, first) != [] && Cost(RemapRanges(ranges, first)) <= Cost(ranges)
  {
    hide VarintLen;
    var r := ranges[0];
    assert ranges[..0] == [] && RemapRanges([], first) == [];
    VarintLenMonotone(MapAckPN(r.largest, first) - MapAckPN(r.smallest, first), Span(r));
  }

  lemma StepCost(mapped: seq<AckRange>, above: AckRange, r: AckRange, first: nat)
    requires mapped != [] && Descending(mapped) && mapped[0].largest < FIT_BOUND
    requires r.smallest <= r.largest && r.largest + 2 <= above.smallest
    requires mapped[|mapped| - 1].smallest == MapAckPN(above.smallest, first)
    ensures Cost(RemapStep(mapped, r, first)) <= Cost(mapped) + VarintLen(Gap(above, r)) + VarintLen(Span(r))
  {
    hide VarintLen, Cost;
    var current := AckRange(MapAckPN(r.smallest, first), MapAckPN(r.largest, first));
    VarintLenMonotone(Span(current), Span(r));
    var j := |mapped| - 1;
    var last := mapped[j];
    if current.largest + 1 >= last.smallest {
      assert Gap(above, r) == 0 && current.largest + 1 == last.smallest;
      if j > 0 {
        Falls(mapped, 0, j);
      }
      MergedSpan(Span(last), Span(current));
      CostOfWiderLast(mapped, AckRange(current.smallest, last.largest));
    } else {
      CostSnoc(mapped, current);
      VarintLenMonotone(Gap(last, current), Gap(above, r));
    }
  }

  lemma CostSnoc(ranges: seq<AckRange>, r: AckRange)
    requires ranges != []
    ensures Cost(ranges + [r]) == Cost(ranges) + VarintLen(Gap(ranges[|ranges| - 1], r)) + VarintLen(Span(r))
  {
    hide VarintLen;
    assert (ranges + [r])[..|ranges|] == ranges;
  }

  lemma CostOfWiderLast(ranges: seq<AckRange>, r: AckRange)
    requires ranges != [] && ranges[|ranges| - 1].largest == r.largest
    ensures Cost(ranges[|ranges| - 1 := r]) == Cost(ranges) - VarintLen(Span(ranges[|ranges| - 1])) + VarintLen(Span(r))
  {
    hide VarintLen;
    var k := |ranges| - 1;
    assert ranges[k := r][..k] == ranges[..k];
  }

  /** Parsing consumed at least the bytes that printing needs. */
  lemma {:induction false} ParsedRangesSize(data: bytes, off: nat, count: nat, previous: AckRange)
    requires ParseRanges(data, off, count, previous.smallest).Some?
    ensures var r := ParseRanges(data, off, count, previous.smallest).value;
      && PrintRanges(previous, r.ranges).Some?
      && off + |PrintRanges(previous, r.ranges).value| <= r.next
    decreases count
  {
    if count == 0 {
      NothingPrinted(previous);
    } else {
      var range, next := OneRangeRead(data, off, count, previous);
      ParsedRangesSize(data, next, count - 1, range);
      hide ParseRanges, PrintRanges, PrintRange;
      var rest := ParseRanges(data, next, count - 1, range.smallest).value.ranges;
      assert ([range] + rest)[1..] == rest;
      OneRangePrinted(previous, [range] + rest);
    }
  }

  lemma NothingPrinted(previous: AckRange)
    ensures PrintRanges(previous, []) == Some([])
  {
  }

  /** The first range read: where it ends in the data, and that its gap and span were read from at least what they print as. */
  lemma OneRangeRead(data: bytes, off: nat, count: nat, previous: AckRange) returns (range: AckRange, next: nat)
    requires count > 0 && ParseRanges(data, off, count, previous.smallest).Some?
    ensures range.smallest <= range.largest && range.largest + 2 <= previous.smallest
    ensures off + |PrintRange(previous, range)| <= next
    ensures var rest := ParseRanges(data, next, count - 1, range.smallest);
      && rest.Some?
      && ParseRanges(data, off, count, previous.smallest) == Some(RangesAt([range] + rest.value.ranges, rest.value.next))
  {
    hide VarintAt, VarintLen, WriteVarint;
    var gap := VarintAt(data, off).value;
    var span := VarintAt(data, gap.next).value;
    VarintAtSize(data, off);
    VarintAtSize(data, gap.next);
    var largest := previous.smallest - gap.value - 2;
    range, next := AckRange(largest - span.value, largest), span.next;
  }

  lemma VarintAtSize(data: bytes, off: nat)
    requires VarintAt(data, off).Some?
    ensures off + VarintLen(VarintAt(data, off).value.value) <= VarintAt(data, off).value.next
  {
    WriteIsShortest(data[off..]);
  }

  lemma {:induction false} ParsedValuesSize(data: bytes, off: nat, count: nat)
    requires VarintsAt(data, off, count).Some?
    ensures off + |PrintValues(VarintsAt(data, off, count).value.values)| <= VarintsAt(data, off, count).value.next
    decreases count
  {
    hide VarintAt, VarintLen, WriteVarint;
    if count > 0 {
      VarintAtSize(data, off);
      var v := VarintAt(data, off).value;
      ParsedValuesSize(data, v.next, count - 1);
      var rest := VarintsAt(data, v.next, count - 1).value.values;
      assert ([v.value] + rest)[1..] == rest;
    }
  }

  /** Bytes of an ACK frame apart from its ranges. */
  function AroundRanges(ack: AckFrame): (n: nat)
    requires |ack.ranges| > 0
  {
    1 + VarintLen(ack.ranges[0].largest) + VarintLen(ack.delay) + |PrintEcn(ack)|
  }

  lemma PrintedSize(ack: AckFrame)
    requires ValidAck(ack)
    ensures PrintAck(ack).Some?
    ensures |PrintAck(ack).value| == AroundRanges(ack) + VarintLen(|ack.ranges| - 1) + Cost(ack.ranges)
  {
    hide VarintLen, WriteVarint;
    DescendingChains(ack.ranges);
    CostIsPrinted(ack.ranges);
  }

  lemma ParsedAckRangesSize(data: bytes, off: nat, largest: nat)
    requires ParseAckRanges(data, off, largest).Some?
    ensures var r := ParseAckRanges(data, off, largest).value;
      && r.ranges != [] && r.ranges[0].largest == largest
      && (Descending(r.ranges) ==> off + VarintLen(|r.ranges| - 1) + Cost(r.ranges) <= r.next)
  {
    hide VarintAt, VarintLen, WriteVarint, ParseRanges, PrintRanges, Cost, Descending;
    VarintAtSize(data, off);
    var rangeCount := VarintAt(data, off).value;
    VarintAtSize(data, rangeCount.next);
    var first := VarintAt(data, rangeCount.next).value;
    var range := AckRange(largest - first.value, largest);
    ParsedRangesSize(data, first.next, rangeCount.value, range);
    RangeCount(data, first.next, rangeCount.value, range.smallest);
    var ranges := ParseAckRanges(data, off, largest).value.ranges;
    assert ranges[1..] == ParseRanges(data, first.next, rangeCount.value, range.smallest).value.ranges;
    if Descending(ranges) {
      DescendingChains(ranges);
      CostIsPrinted(ranges);
    }
  }

  lemma {:induction false} RangeCount(data: bytes, off: nat, count: nat, smallest: nat)
    requires ParseRanges(data, off, count, smallest).Some?
    ensures |ParseRanges(data, off, count, smallest).value.ranges| == count
    decreases count
  {
    hide VarintAt;
    if count > 0 {
      var gap := VarintAt(data, off).value;
      var span := VarintAt(data, gap.next).value;
      RangeCount(data, span.next, count - 1, smallest - gap.value - 2 - span.value);
    }
  }

  lemma ParsedAckSize(f: bytes, ack: AckFrame)
    requires f != [] && ParseAck(f, 1, f[0]) == Some(AckAt(ack, |f|)) && Descending(ack.ranges)
    ensures ack.ranges != [] && AroundRanges(ack) + VarintLen(|ack.ranges| - 1) + Cost(ack.ranges) <= |f|
  {
    hide VarintAt, VarintsAt, VarintLen, ParseAckRanges, Cost, Descending, PrintValues;
    VarintAtSize(f, 1);
    var largest := VarintAt(f, 1).value;
    VarintAtSize(f, largest.next);
    var delay := VarintAt(f, largest.next).value;
    ParsedAckRangesSize(f, delay.next, largest.value);
    var ranges := ParseAckRanges(f, delay.next, largest.value).value;
    if f[0] == 0x03 {
      ParsedValuesSize(f, ranges.next, 3);
    }
  }

  /** A frame on the wire is at least as long as the frame printed from what it says. */
  lemma WireSize(f: bytes)
    requires Whole(f) && IsAck(f)
    ensures ValidAck(AckOf(f)) && PrintAck(AckOf(f)).Some? && |PrintAck(AckOf(f)).value| <= |f|
  {
    FirstByte(f);
    WholeAck(f);
    hide Whole, IsAck, AckOf, PrintAck, Cost, VarintLen, ParseAck, AroundRanges, Descending;
    PrintedSize(AckOf(f));
    ParsedAckSize(f, AckOf(f));
  }

  /** Every number this frame acknowledges is below the bound. */
  ghost predicate AcksBelow(f: bytes, bound: nat)
  {
    Whole(f) && (IsAck(f) && AckOf(f).ranges != [] ==> AckOf(f).ranges[0].largest < bound)
  }

  lemma RewriteFrameFits(f: bytes, first: nat)
    requires AcksBelow(f, FIT_BOUND)
    ensures RewriteFrame(f, first).Some? && |RewriteFrame(f, first).value| <= |f|
  {
    RewriteFrameExact(f, first);
    if IsAck(f) {
      WireSize(f);
      var ack := AckOf(f);
      var mapped := RemapAck(ack, first);
      RemapKeepsValid(ack, first);
      PrintedSize(ack);
      PrintedSize(mapped);
      RemapShape(ack.ranges, first);
      RemapCost(ack.ranges, first);
      VarintLenMonotone(mapped.ranges[0].largest, ack.ranges[0].largest);
      VarintLenMonotone(|mapped.ranges| - 1, |ack.ranges| - 1);
    }
  }

  ghost predicate PayloadAcksBelow(plaintext: bytes, bound: nat) {
    Frames(plaintext).Some? && forall i :: 0 <= i < |Frames(plaintext).value| ==> AcksBelow(Frames(plaintext).value[i], bound)
  }

  /** Below packet number 2^30 rewriting a payload never makes it longer. */
  lemma RewriteFits(plaintext: bytes, first: nat)
    requires PayloadAcksBelow(plaintext, FIT_BOUND)
    ensures RewriteAckFrames(plaintext, first).Some?
    ensures |RewriteAckFrames(plaintext, first).value| <= |plaintext|
  {
    RewriteIsFramewise(plaintext, first);
    ConcatOfFrames(plaintext);
    var fs := Frames(plaintext).value;
    EachFits(fs, first);
  }

  lemma {:induction false} EachFits(fs: seq<bytes>, first: nat)
    requires forall i :: 0 <= i < |fs| ==> Whole(fs[i]) && AcksBelow(fs[i], FIT_BOUND)
    ensures |Concat(RewriteEach(fs, first))| <= |Concat(fs)|
  {
    hide RewriteFrame, AcksBelow, Whole;
    if fs != [] {
      RewriteFrameFits(fs[0], first);
      EachFits(fs[1..], first);
      var gs := RewriteEach(fs, first);
      assert gs[1..] == RewriteEach(fs[1..], first);
    }
  }

  // ---- exactly when an ACK grows ------------------------------------------

  /** The last range, and what remapping and printing make of it. */
  lemma LastRange(ranges: seq<AckRange>, first: nat)
    requires Descending(ranges) && |ranges| > 1
    ensures var k := |ranges| - 1;
      var init, r := ranges[..k], ranges[k];
      && Descending(init) && r.smallest <= r.largest && r.largest + 2 <= init[k - 1].smallest
      && init[k - 1].smallest <= init[k - 1].largest
      && RemapRanges(ranges, first) == RemapStep(RemapRanges(init, first), r, first)
      && Cost(ranges) == Cost(init) + VarintLen(Gap(init[k - 1], r)) + VarintLen(Span(r))
  {
    hide RemapStep, VarintLen;
  }

  lemma OnlyRange(ranges: seq<AckRange>, first: nat)
    requires |ranges| == 1
    ensures var r := ranges[0];
      var current := AckRange(MapAckPN(r.smallest, first), MapAckPN(r.largest, first));
      && RemapRanges(ranges, first) == [current]
      && Cost(ranges) == VarintLen(Span(r)) && Cost([current]) == VarintLen(Span(current))
  {
    hide VarintLen;
    assert RemapRanges(ranges[..0], first) == [];
  }

  /** A range that does not merge is appended, with its gap and its span. */
  lemma AppendedCost(mapped: seq<AckRange>, r: AckRange, first: nat)
    requires mapped != [] && r.smallest <= r.largest && MapAckPN(r.largest, first) + 1 < mapped[|mapped| - 1].smallest
    ensures var current := AckRange(MapAckPN(r.smallest, first), MapAckPN(r.largest, first));
      && RemapStep(mapped, r, first) == mapped + [current]
      && Cost(mapped + [current]) == Cost(mapped) + VarintLen(Gap(mapped[|mapped| - 1], current)) + VarintLen(Span(current))
  {
    hide VarintLen, Cost;
    CostSnoc(mapped, AckRange(MapAckPN(r.smallest, first), MapAckPN(r.largest, first)));
  }

  ghost predicate Unmerged(ranges: seq<AckRange>, first: nat) {
    forall i: nat :: !ClosesAt(ranges, i, first)
  }

  /** Where nothing merges, spans and gaps only shrink. */
  lemma {:induction false} UnmergedCost(ranges: seq<AckRange>, first: nat)
    requires Descending(ranges) && ranges != [] && Unmerged(ranges, first)
    ensures RemapRanges(ranges, first) != [] && Cost(RemapRanges(ranges, first)) <= Cost(ranges)
    decreases |ranges|
  {
    RemapShape(ranges, first);
    hide *;
    var k := |ranges| - 1;
    if k == 0 {
      OneUnmerged(ranges, first);
    } else {
      LastRange(ranges, first);
      InitUnmerged(ranges, first);
      UnmergedCost(ranges[..k], first);
      RemapShape(ranges[..k], first);
      OneMoreUnmerged(RemapRanges(ranges[..k], first), ranges[k - 1], ranges[k], first);
    }
  }

  lemma InitUnmerged(ranges: seq<AckRange>, first: nat)
    requires |ranges| > 1 && Unmerged(ranges, first)
    ensures Unmerged(ranges[..|ranges| - 1], first)
    ensures var above, r := ranges[|ranges| - 2], ranges[|ranges| - 1];
      above.smallest != r.largest + 2 || (r.largest + 1 != first && r.largest != first)
  {
    ClosesInit(ranges, first);
    assert !ClosesAt(ranges, |ranges| - 1, first);
  }

  lemma OneUnmerged(ranges: seq<AckRange>, first: nat)
    requires Descending(ranges) && |ranges| == 1
    ensures RemapRanges(ranges, first) != [] && Cost(RemapRanges(ranges, first)) <= Cost(ranges)
  {
    OnlyRange(ranges, first);
    var r := ranges[0];
    VarintLenMonotone(Span(AckRange(MapAckPN(r.smallest, first), MapAckPN(r.largest, first))), Span(r));
    hide VarintLen, Cost, RemapRanges;
  }

  lemma OneMoreUnmerged(mapped: seq<AckRange>, above: AckRange, r: AckRange, first: nat)
    requires mapped != [] && mapped[|mapped| - 1].smallest == MapAckPN(above.smallest, first)
    requires r.smallest <= r.largest && r.largest + 2 <= above.smallest <= above.largest
    requires above.smallest != r.largest + 2 || (r.largest + 1 != first && r.largest != first)
    ensures var m := RemapStep(mapped, r, first);
      m != [] && Cost(m) <= Cost(mapped) + VarintLen(Gap(above, r)) + VarintLen(Span(r))
  {
    hide VarintLen, Cost, RemapStep;
    AppendedCost(mapped, r, first);
    var current := AckRange(MapAckPN(r.smallest, first), MapAckPN(r.largest, first));
    VarintLenMonotone(Span(current), Span(r));
    VarintLenMonotone(Gap(mapped[|mapped| - 1], current), Gap(above, r));
  }

  /** Above the split packet everything moves down by one: spans and gaps stay what they were. */
  lemma {:induction false} ShiftedCost(ranges: seq<AckRange>, first: nat)
    requires Descending(ranges) && ranges != [] && ranges[|ranges| - 1].smallest >= first + 1
    ensures var mapped := RemapRanges(ranges, first);
      && mapped != [] && Cost(mapped) == Cost(ranges)
      && mapped[|mapped| - 1]
         == AckRange(Minus(ranges[|ranges| - 1].smallest, 1), Minus(ranges[|ranges| - 1].largest, 1))
    decreases |ranges|
  {
    hide *;
    if |ranges| == 1 {
      OneShifted(ranges, first);
    } else {
      LastRange(ranges, first);
      ShiftedCost(ranges[..|ranges| - 1], first);
      OneMoreShifted(RemapRanges(ranges[..|ranges| - 1], first), ranges[|ranges| - 2], ranges[|ranges| - 1], first);
    }
  }

  lemma OneShifted(ranges: seq<AckRange>, first: nat)
    requires Descending(ranges) && |ranges| == 1 && ranges[0].smallest >= first + 1
    ensures var mapped := RemapRanges(ranges, first);
      && mapped != [] && Cost(mapped) == Cost(ranges)
      && mapped[|mapped| - 1] == AckRange(Minus(ranges[0].smallest, 1), Minus(ranges[0].largest, 1))
  {
    OnlyRange(ranges, first);
    hide VarintLen, Cost, RemapRanges;
  }

  lemma OneMoreShifted(mapped: seq<AckRange>, above: AckRange, r: AckRange, first: nat)
    requires mapped != [] && mapped[|mapped| - 1] == AckRange(Minus(above.smallest, 1), Minus(above.largest, 1))
    requires first + 1 <= r.smallest <= r.largest && r.largest + 2 <= above.smallest <= above.largest
    ensures var m := RemapStep(mapped, r, first);
      && m != [] && m[|m| - 1] == AckRange(Minus(r.smallest, 1), Minus(r.largest, 1))
      && Cost(m) == Cost(mapped) + VarintLen(Gap(above, r)) + VarintLen(Span(r))
  {
    hide VarintLen, Cost, RemapStep;
    AppendedCost(mapped, r, first);
  }

  /** Where two neighbours merge, the wider span replaces their spans and the gap between them; all else stays. */
  lemma {:induction false} MergedCost(ranges: seq<AckRange>, first: nat, i: nat)
    requires Descending(ranges) && ClosesAt(ranges, i, first)
    ensures var above, below := Span(ranges[i - 1]), Span(ranges[i]);
      && RemapRanges(ranges, first) != []
      && Cost(RemapRanges(ranges, first)) + VarintLen(above) + 1 + VarintLen(below)
         == Cost(ranges) + VarintLen(above + below + 1)
    decreases |ranges|
  {
    hide *;
    MergeIsInside(ranges, first, i);
    RemapShape(ranges, first);
    var k := |ranges| - 1;
    LastRange(ranges, first);
    if i == k {
      ShiftedCost(ranges[..k], first);
      LastMerges(RemapRanges(ranges[..k], first), ranges[k - 1], ranges[k], first);
    } else {
      RemapShape(ranges[..k], first);
      MergedCost(ranges[..k], first, i);
      OneMoreKept(RemapRanges(ranges[..k], first), ranges[k - 1], ranges[k], first);
    }
  }

  lemma MergeIsInside(ranges: seq<AckRange>, first: nat, i: nat)
    requires Descending(ranges) && ClosesAt(ranges, i, first)
    ensures 0 < i < |ranges| && ranges[i - 1].smallest == ranges[i].largest + 2 && ranges[i - 1].smallest >= first + 1
    ensures ranges[i].largest + 1 == first || ranges[i].largest == first
    ensures i < |ranges| - 1 ==>
      ClosesAt(ranges[..|ranges| - 1], i, first) && ranges[|ranges| - 2].smallest <= first
  {
    if i < |ranges| - 1 {
      if i < |ranges| - 2 {
        Falls(ranges, i, |ranges| - 2);
      }
    }
  }

  lemma LastMerges(mapped: seq<AckRange>, above: AckRange, r: AckRange, first: nat)
    requires mapped != [] && mapped[|mapped| - 1] == AckRange(Minus(above.smallest, 1), Minus(above.largest, 1))
    requires r.smallest <= r.largest && r.largest + 2 == above.smallest <= above.largest
    requires r.largest + 1 == first || r.largest == first
    ensures var m := RemapStep(mapped, r, first);
      && m != [] && VarintLen(Gap(above, r)) == 1
      && Cost(m) + VarintLen(Span(above)) == Cost(mapped) + VarintLen(Span(above) + Span(r) + 1)
  {
    assert VarintLen(0) == 1;
    hide VarintLen, Cost, RemapStep;
    LastWidens(mapped, above, r, first);
    CostOfWiderLast(mapped, AckRange(r.smallest, Minus(above.largest, 1)));
    assert Span(AckRange(r.smallest, Minus(above.largest, 1))) == Span(above) + Span(r) + 1;
    assert Span(mapped[|mapped| - 1]) == Span(above);
  }

  lemma LastWidens(mapped: seq<AckRange>, above: AckRange, r: AckRange, first: nat)
    requires mapped != [] && mapped[|mapped| - 1] == AckRange(Minus(above.smallest, 1), Minus(above.largest, 1))
    requires r.smallest <= r.largest && r.largest + 2 == above.smallest <= above.largest
    requires r.largest + 1 == first || r.largest == first
    ensures RemapStep(mapped, r, first) == mapped[|mapped| - 1 := AckRange(r.smallest, Minus(above.largest, 1))]
  {
  }

  /** Below the split packet nothing moves. */
  lemma OneMoreKept(mapped: seq<AckRange>, above: AckRange, r: AckRange, first: nat)
    requires mapped != [] && mapped[|mapped| - 1].smallest == MapAckPN(above.smallest, first)
    requires r.smallest <= r.largest && r.largest + 2 <= above.smallest <= first
    ensures var m := RemapStep(mapped, r, first);
      m != [] && Cost(m) == Cost(mapped) + VarintLen(Gap(above, r)) + VarintLen(Span(r))
  {
    hide VarintLen, Cost, RemapStep;
    AppendedCost(mapped, r, first);
  }

  /** What merging the neighbours i - 1 and i costs in all: the merged span, one range less, the largest number less one. */
  ghost predicate MergeGrows(ranges: seq<AckRange>, i: nat)
    requires 0 < i < |ranges|
  {
    var above, below, largest := Span(ranges[i - 1]), Span(ranges[i]), ranges[0].largest;
    VarintLen(above + below + 1) + VarintLen(|ranges| - 2) + VarintLen(Minus(largest, 1))
    > VarintLen(above) + 1 + VarintLen(below) + VarintLen(|ranges| - 1) + VarintLen(largest)
  }

  /**
   * A remapped ACK prints longer exactly if it merges two ranges and the merged span takes more bytes than the two spans
   * and the gap it replaces, together with what the range count and the largest number may save.
   */
  lemma RemapGrowsExactly(ack: AckFrame, first: nat)
    requires ValidAck(ack)
    ensures PrintAck(ack).Some? && PrintAck(RemapAck(ack, first)).Some?
    ensures |PrintAck(RemapAck(ack, first)).value| > |PrintAck(ack).value|
       <==> exists i :: ClosesAt(ack.ranges, i, first) && MergeGrows(ack.ranges, i)
  {
    hide VarintLen, PrintAck, Cost, RemapRanges, Descending, PrintValues, WriteVarint, Span;
    var mapped := RemapAck(ack, first);
    RemapKeepsValid(ack, first);
    PrintedSize(ack);
    PrintedSize(mapped);
    RemapShape(ack.ranges, first);
    RemapMerges(ack.ranges, first);
    if i: nat :| ClosesAt(ack.ranges, i, first) {
      OnlyMerge(ack.ranges, first, i);
      MergedCost(ack.ranges, first, i);
      assert MergeGrows(ack.ranges, i) <==> |PrintAck(mapped).value| > |PrintAck(ack).value|;
    } else {
      UnmergedCost(ack.ranges, first);
      VarintLenMonotone(mapped.ranges[0].largest, ack.ranges[0].largest);
      VarintLenMonotone(|mapped.ranges| - 1, |ack.ranges| - 1);
    }
  }

  /** No other neighbours merge, and the largest number goes down by one. */
  lemma OnlyMerge(ranges: seq<AckRange>, first: nat, i: nat)
    requires Descending(ranges) && ClosesAt(ranges, i, first)
    ensures forall j :: ClosesAt(ranges, j, first) ==> j == i
    ensures MapAckPN(ranges[0].largest, first) == Minus(ranges[0].largest, 1)
  {
    ClosesOnce(ranges, first, i);
    forall j: nat | ClosesAt(ranges, j, first)
      ensures j == i
    {
      ClosesOnce(ranges, first, j);
    }
    if i > 1 {
      Falls(ranges, 0, i - 1);
    }
  }

  /** At 2^30 the bound is needed: closing this gap widens a span from four bytes to eight and saves only two. */
  lemma FitNeedsTheBound()
    ensures var ack := AckFrame(0x02, 0, [AckRange(2, FIT_BOUND + 1), AckRange(0, 0)], [0, 0, 0]);
      && ValidAck(ack)
      && PrintAck(ack).Some? && PrintAck(RemapAck(ack, 0)).Some?
      && |PrintAck(RemapAck(ack, 0)).value| == |PrintAck(ack).value| + 2
  {
    var ack := AckFrame(0x02, 0, [AckRange(2, FIT_BOUND + 1), AckRange(0, 0)], [0, 0, 0]);
    var mapped := RemapAck(ack, 0);
    hide WriteVarint;
    assert ack.ranges[..1] == [AckRange(2, FIT_BOUND + 1)] && ack.ranges[..1][..0] == [];
    assert RemapRanges(ack.ranges[..1], 0) == [AckRange(1, FIT_BOUND)];
    assert mapped.ranges == [AckRange(0, FIT_BOUND)];
    PrintedSize(ack);
    PrintedSize(mapped);
    assert Cost(ack.ranges[..1]) == 4;
  }
}
