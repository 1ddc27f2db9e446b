/** Frame boundaries (section 19 of RFC 9000): parseAckFrame, skipVarints and frameEnd, and what they make of a payload. */
module Framing {
  import opened Bytes
  import opened Varint

  datatype AckRange = AckRange(smallest: nat, largest: nat)
  datatype AckFrame = AckFrame(frameType: byte, delay: nat, ranges: seq<AckRange>, ecn: seq<nat>)

  datatype AckAt = AckAt(ack: AckFrame, next: nat)
  datatype RangesAt = RangesAt(ranges: seq<AckRange>, next: nat)
  datatype ValuesAt = ValuesAt(values: seq<nat>, next: nat)

  // ---- parsing ------------------------------------------------------------

  /** `count` varints in a row. */
  function VarintsAt(data: bytes, off: nat, count: nat): (r: Option<ValuesAt>)
    ensures r.Some? ==> off + count <= r.value.next && |r.value.values| == count
    ensures r.Some? ==> (off <= |data| ==> r.value.next <= |data|)
    ensures r.Some? ==> forall i :: 0 <= i < count ==> r.value.values[i] < MAX_VARINT
    decreases count
  {
    if count == 0 then Some(ValuesAt([], off))
    else
      match VarintAt(data, off)
      case None => None
      case Some(v) =>
        match VarintsAt(data, v.next, count - 1)
        case None => None
        case Some(rest) => Some(ValuesAt([v.value] + rest.values, rest.next))
  }

  function SkipVarints(data: bytes, off: nat, count: nat): (end: Option<nat>)
    ensures end.Some? ==> off + count <= end.value
    ensures end.Some? ==> (off <= |data| ==> end.value <= |data|)
  {
    match VarintsAt(data, off, count)
    case None => None
    case Some(v) => Some(v.next)
  }

  /** A varint length and that many bytes. */
  function SkipCounted(data: bytes, off: nat): (end: Option<nat>)
    ensures end.Some? ==> off < end.value <= |data|
  {
    match VarintAt(data, off)
    case None => None
    case Some(length) =>
      if length.value > |data| - length.next then None else Some(length.next + length.value)
  }

  /** The ranges after the first one, each below `previous`, the smallest number of the range before. */
  function ParseRanges(data: bytes, off: nat, count: nat, previous: nat): (r: Option<RangesAt>)
    ensures r.Some? ==> r.value.next >= off + 2 * count && |r.value.ranges| == count
    ensures r.Some? ==> (off <= |data| ==> r.value.next <= |data|)
    decreases count
  {
    if count == 0 then Some(RangesAt([], off))
    else
      match VarintAt(data, off)
      case None => None
      case Some(gap) =>
        match VarintAt(data, gap.next)
        case None => None
        case Some(span) =>
          if gap.value > previous || previous - gap.value < 2 then None
          else
            var largest := previous - gap.value - 2;
            if span.value > largest then None
            else
              var range := AckRange(largest - span.value, largest);
              match ParseRanges(data, span.next, count - 1, range.smallest)
              case None => None
              case Some(rest) => Some(RangesAt([range] + rest.ranges, rest.next))
  }

  /** The range count, the first range and the ranges behind it; `largest` is the largest acknowledged number. */
  function ParseAckRanges(data: bytes, off: nat, largest: nat): (r: Option<RangesAt>)
    ensures r.Some? ==> off < r.value.next <= |data|
  {
    match VarintAt(data, off)
    case None => None
    case Some(rangeCount) =>
      if rangeCount.value > |data| - rangeCount.next then None
      else
        match VarintAt(data, rangeCount.next)
        case None => None
        case Some(first) =>
          if first.value > largest then None
          else
            var range := AckRange(largest - first.value, largest);
            Prepend([range], ParseRanges(data, first.next, rangeCount.value, range.smallest))
  }

  /** Ranges already read, then the ranges still to come. */
  function Prepend(done: seq<AckRange>, more: Option<RangesAt>): (r: Option<RangesAt>)
  {
    match more
    case None => None
    case Some(m) => Some(RangesAt(done + m.ranges, m.next))
  }

  function ParseAck(data: bytes, off: nat, frameType: byte): (r: Option<AckAt>)
    ensures r.Some? ==> off < r.value.next <= |data|
  {
    match VarintAt(data, off)
    case None => None
    case Some(largest) =>
      match VarintAt(data, largest.next)
      case None => None
      case Some(delay) =>
        match ParseAckRanges(data, delay.next, largest.value)
        case None => None
        case Some(ranges) =>
          if frameType == 0x03 then
            match VarintsAt(data, ranges.next, 3)
            case None => None
            case Some(ecn) => Some(AckAt(AckFrame(frameType, delay.value, ranges.ranges, ecn.values), ecn.next))
          else Some(AckAt(AckFrame(frameType, delay.value, ranges.ranges, [0, 0, 0]), ranges.next))
  }

  /** Frames that run to the end of the packet: STREAM without a length and DATAGRAM without a length. */
  predicate OpenEnded(frameType: byte) {
    (0x08 <= frameType <= 0x0f && frameType / 2 % 2 == 0) || frameType == 0x30
  }

  /** CRYPTO: an offset, a length, the data. */
  function CryptoEnd(data: bytes, off: nat): (end: Option<nat>)
    ensures end.Some? ==> off < end.value <= |data|
  {
    match VarintAt(data, off)
    case None => None
    case Some(offset) => SkipCounted(data, offset.next)
  }

  /** STREAM: bit 0x04 announces an offset, bit 0x02 a length. */
  function StreamEnd(data: bytes, off: nat, t: byte): (end: Option<nat>)
    ensures end.Some? ==> off <= |data| ==> off <= end.value <= |data|
  {
    match SkipVarints(data, off, if t / 4 % 2 != 0 then 2 else 1)
    case None => None
    case Some(next) => if t / 2 % 2 == 0 then Some(|data|) else SkipCounted(data, next)
  }

  /** NEW_CONNECTION_ID: two varints, a connection ID of at most 20 bytes, a 16-byte token. */
  function NewConnectionIdEnd(data: bytes, off: nat): (end: Option<nat>)
    ensures end.Some? ==> off < end.value <= |data|
  {
    match SkipVarints(data, off, 2)
    case None => None
    case Some(next) =>
      if next >= |data| then None
      else if data[next] > 20 || next + 1 + data[next] + 16 > |data| then None
      else Some(next + 1 + data[next] + 16)
  }

  /** CONNECTION_CLOSE: the error code, for a transport close the frame type, and a counted reason. */
  function CloseEnd(data: bytes, off: nat, t: byte): (end: Option<nat>)
    ensures end.Some? ==> off < end.value <= |data|
  {
    match SkipVarints(data, off, if t == 0x1c then 2 else 1)
    case None => None
    case Some(next) => SkipCounted(data, next)
  }

  function AckEnd(data: bytes, off: nat, t: byte): (end: Option<nat>)
    ensures end.Some? ==> off < end.value <= |data|
  {
    match ParseAck(data, off, t)
    case None => None
    case Some(a) => Some(a.next)
  }

  /** The offset just behind the frame at `start`. */
  function FrameEnd(data: bytes, start: nat): (end: Option<nat>)
    ensures end.Some? ==> start < end.value <= |data|
  {
    if start >= |data| then None
    else
      var t := data[start];
      var off := start + 1;
      if t == 0x00 || t == 0x01 || t == 0x1e then Some(off)
      else if t == 0x02 || t == 0x03 then AckEnd(data, off, t)
      else if t == 0x04 then SkipVarints(data, off, 3)
      else if t == 0x05 then SkipVarints(data, off, 2)
      else if t == 0x06 then CryptoEnd(data, off)
      else if t == 0x07 then SkipCounted(data, off)
      else if 0x08 <= t <= 0x0f then StreamEnd(data, off, t)
      else if t == 0x10 || t == 0x12 || t == 0x13 || t == 0x14 || t == 0x16 || t == 0x17 || t == 0x19 then
        SkipVarints(data, off, 1)
      else if t == 0x11 || t == 0x15 then SkipVarints(data, off, 2)
      else if t == 0x18 then NewConnectionIdEnd(data, off)
      else if t == 0x1a || t == 0x1b then if off + 8 > |data| then None else Some(off + 8)
      else if t == 0x1c || t == 0x1d then CloseEnd(data, off, t)
      else if t == 0x30 then Some(|data|)
      else if t == 0x31 then SkipCounted(data, off)
      else None
  }

  // ---- locality: a frame is read from its own bytes -----------------------

  lemma {:induction false} VarintsLocal(d: bytes, e: bytes, delta: int, off: nat, hi: nat, count: nat)
    requires VarintsAt(d, off, count).Some? && VarintsAt(d, off, count).value.next <= hi
    requires Agree(d, e, delta, off, hi)
    ensures VarintsAt(e, off + delta, count)
         == Some(ValuesAt(VarintsAt(d, off, count).value.values, VarintsAt(d, off, count).value.next + delta))
    decreases count
  {
    hide VarintAt, Agree;
    AgreeAt(d, e, delta, off, hi);
    if count > 0 {
      VarintLocal(d, e, delta, off, hi);
      var next := VarintAt(d, off).value.next;
      AgreeWithin(d, e, delta, off, hi, next, hi);
      VarintsLocal(d, e, delta, next, hi, count - 1);
    }
  }

  lemma SkipVarintsLocal(d: bytes, e: bytes, delta: int, off: nat, hi: nat, count: nat)
    requires SkipVarints(d, off, count).Some? && SkipVarints(d, off, count).value <= hi
    requires Agree(d, e, delta, off, hi)
    ensures 0 <= off + delta
    ensures SkipVarints(e, off + delta, count) == Some(SkipVarints(d, off, count).value + delta)
    ensures Agree(d, e, delta, SkipVarints(d, off, count).value, hi)
  {
    VarintsLocal(d, e, delta, off, hi, count);
    hide VarintsAt;
    AgreeWithin(d, e, delta, off, hi, SkipVarints(d, off, count).value, hi);
  }

  lemma SkipCountedLocal(d: bytes, e: bytes, delta: int, off: nat, hi: nat)
    requires SkipCounted(d, off).Some? && SkipCounted(d, off).value <= hi
    requires Agree(d, e, delta, off, hi)
    ensures SkipCounted(e, off + delta) == Some(SkipCounted(d, off).value + delta)
  {
    hide VarintAt, Agree;
    AgreeAt(d, e, delta, off, hi);
    VarintLocal(d, e, delta, off, hi);
  }

  lemma {:induction false} RangesLocal(d: bytes, e: bytes, delta: int, off: nat, hi: nat, count: nat, previous: nat)
    requires ParseRanges(d, off, count, previous).Some? && ParseRanges(d, off, count, previous).value.next <= hi
    requires Agree(d, e, delta, off, hi)
    ensures 0 <= off + delta
    ensures ParseRanges(e, off + delta, count, previous)
         == Some(RangesAt(ParseRanges(d, off, count, previous).value.ranges,
                          ParseRanges(d, off, count, previous).value.next + delta))
    decreases count
  {
    hide VarintAt, Agree;
    AgreeAt(d, e, delta, off, hi);
    if count > 0 {
      VarintLocal(d, e, delta, off, hi);
      var gap := VarintAt(d, off).value;
      AgreeWithin(d, e, delta, off, hi, gap.next, hi);
      VarintLocal(d, e, delta, gap.next, hi);
      var span := VarintAt(d, gap.next).value;
      AgreeWithin(d, e, delta, off, hi, span.next, hi);
      RangesLocal(d, e, delta, span.next, hi, count - 1, previous - gap.value - 2 - span.value);
    }
  }

  lemma AckRangesLocal(d: bytes, e: bytes, delta: int, off: nat, hi: nat, largest: nat)
    requires ParseAckRanges(d, off, largest).Some? && ParseAckRanges(d, off, largest).value.next <= hi
    requires Agree(d, e, delta, off, hi)
    ensures 0 <= off + delta
    ensures ParseAckRanges(e, off + delta, largest)
         == Some(RangesAt(ParseAckRanges(d, off, largest).value.ranges, ParseAckRanges(d, off, largest).value.next + delta))
  {
    hide VarintAt, ParseRanges, Agree;
    AgreeAt(d, e, delta, off, hi);
    VarintLocal(d, e, delta, off, hi);
    var rangeCount := VarintAt(d, off).value;
    AgreeWithin(d, e, delta, off, hi, rangeCount.next, hi);
    VarintLocal(d, e, delta, rangeCount.next, hi);
    var first := VarintAt(d, rangeCount.next).value;
    AgreeWithin(d, e, delta, off, hi, first.next, hi);
    RangesLocal(d, e, delta, first.next, hi, rangeCount.value, largest - first.value);
  }

  lemma AckLocal(d: bytes, e: bytes, delta: int, off: nat, hi: nat, frameType: byte)
    requires ParseAck(d, off, frameType).Some? && ParseAck(d, off, frameType).value.next <= hi
    requires Agree(d, e, delta, off, hi)
    ensures 0 <= off + delta
    ensures ParseAck(e, off + delta, frameType)
         == Some(AckAt(ParseAck(d, off, frameType).value.ack, ParseAck(d, off, frameType).value.next + delta))
  {
    hide VarintAt, VarintsAt, ParseAckRanges, Agree;
    AgreeAt(d, e, delta, off, hi);
    VarintLocal(d, e, delta, off, hi);
    var largest := VarintAt(d, off).value;
    AgreeWithin(d, e, delta, off, hi, largest.next, hi);
    VarintLocal(d, e, delta, largest.next, hi);
    var delay := VarintAt(d, largest.next).value;
    AgreeWithin(d, e, delta, off, hi, delay.next, hi);
    AckRangesLocal(d, e, delta, delay.next, hi, largest.value);
    var ranges := ParseAckRanges(d, delay.next, largest.value).value;
    if frameType == 0x03 {
      AgreeWithin(d, e, delta, off, hi, ranges.next, hi);
      VarintsLocal(d, e, delta, ranges.next, hi, 3);
    }
  }

  lemma CryptoLocal(d: bytes, e: bytes, delta: int, off: nat, hi: nat)
    requires CryptoEnd(d, off).Some? && CryptoEnd(d, off).value <= hi
    requires Agree(d, e, delta, off, hi)
    ensures 0 <= off + delta
    ensures CryptoEnd(e, off + delta) == Some(CryptoEnd(d, off).value + delta)
  {
    hide VarintAt, SkipCounted, Agree;
    AgreeAt(d, e, delta, off, hi);
    VarintLocal(d, e, delta, off, hi);
    AgreeWithin(d, e, delta, off, hi, VarintAt(d, off).value.next, hi);
    SkipCountedLocal(d, e, delta, VarintAt(d, off).value.next, hi);
  }

  lemma StreamLocal(d: bytes, e: bytes, delta: int, off: nat, t: byte, hi: nat)
    requires StreamEnd(d, off, t).Some? && StreamEnd(d, off, t).value <= hi
    requires Agree(d, e, delta, off, hi)
    requires t / 2 % 2 == 0 ==> |d| == hi && |e| == hi + delta
    ensures 0 <= off + delta
    ensures StreamEnd(e, off + delta, t) == Some(StreamEnd(d, off, t).value + delta)
  {
    hide SkipVarints, SkipCounted, Agree;
    AgreeAt(d, e, delta, off, hi);
    var n := if t / 4 % 2 != 0 then 2 else 1;
    SkipVarintsLocal(d, e, delta, off, hi, n);
    if t / 2 % 2 != 0 {
      SkipCountedLocal(d, e, delta, SkipVarints(d, off, n).value, hi);
    }
  }

  lemma NewConnectionIdLocal(d: bytes, e: bytes, delta: int, off: nat, hi: nat)
    requires NewConnectionIdEnd(d, off).Some? && NewConnectionIdEnd(d, off).value <= hi
    requires Agree(d, e, delta, off, hi)
    ensures 0 <= off + delta
    ensures NewConnectionIdEnd(e, off + delta) == Some(NewConnectionIdEnd(d, off).value + delta)
  {
    hide SkipVarints, Agree;
    AgreeAt(d, e, delta, off, hi);
    SkipVarintsLocal(d, e, delta, off, hi, 2);
    AgreeAt(d, e, delta, SkipVarints(d, off, 2).value, hi);
  }

  lemma CloseLocal(d: bytes, e: bytes, delta: int, off: nat, t: byte, hi: nat)
    requires CloseEnd(d, off, t).Some? && CloseEnd(d, off, t).value <= hi
    requires Agree(d, e, delta, off, hi)
    ensures 0 <= off + delta
    ensures CloseEnd(e, off + delta, t) == Some(CloseEnd(d, off, t).value + delta)
  {
    hide SkipVarints, SkipCounted, Agree;
    AgreeAt(d, e, delta, off, hi);
    var n := if t == 0x1c then 2 else 1;
    SkipVarintsLocal(d, e, delta, off, hi, n);
    SkipCountedLocal(d, e, delta, SkipVarints(d, off, n).value, hi);
  }

  /** Moved anywhere, a frame ends where it ended; an open-ended one must stay last. */
  lemma FrameLocal(d: bytes, e: bytes, delta: int, start: nat, end: nat)
    requires FrameEnd(d, start) == Some(end)
    requires Agree(d, e, delta, start, end)
    requires OpenEnded(d[start]) ==> |e| == end + delta
    ensures 0 <= start + delta
    ensures end + delta <= |e| && e[start + delta] == d[start]
    ensures FrameEnd(e, start + delta) == Some(end + delta)
  {
    hide ParseAck, SkipCounted, SkipVarints, CryptoEnd, StreamEnd, NewConnectionIdEnd, CloseEnd, Agree;
    AgreeAt(d, e, delta, start, end);
    var t := d[start];
    var off := start + 1;
    AgreeWithin(d, e, delta, start, end, off, end);
    if t == 0x02 || t == 0x03 {
      AckLocal(d, e, delta, off, end, t);
    } else if t == 0x04 || t == 0x05 || 0x10 <= t <= 0x17 || t == 0x19 {
      var n := if t == 0x04 then 3 else if t == 0x05 || t == 0x11 || t == 0x15 then 2 else 1;
      SkipVarintsLocal(d, e, delta, off, end, n);
    } else if t == 0x06 {
      CryptoLocal(d, e, delta, off, end);
    } else if t == 0x07 || t == 0x31 {
      SkipCountedLocal(d, e, delta, off, end);
    } else if 0x08 <= t <= 0x0f {
      if t / 2 % 2 == 0 {
        StreamEndsOpen(d, off, t);
      }
      StreamLocal(d, e, delta, off, t, end);
    } else if t == 0x18 {
      NewConnectionIdLocal(d, e, delta, off, end);
    } else if t == 0x1c || t == 0x1d {
      CloseLocal(d, e, delta, off, t, end);
    }
  }

  lemma StreamEndsOpen(d: bytes, off: nat, t: byte)
    requires StreamEnd(d, off, t).Some? && t / 2 % 2 == 0
    ensures StreamEnd(d, off, t).value == |d|
  {
  }

  // ---- a payload as a list of frames --------------------------------------

  /** f is one frame and nothing else. */
  predicate Whole(f: bytes) {
    FrameEnd(f, 0) == Some(|f|)
  }

  lemma FirstByte(f: bytes)
    requires Whole(f)
    ensures |f| > 0
  {
  }

  /** Whole frames, of which only the last may run to the end of the packet. */
  predicate WellFramed(fs: seq<bytes>) {
    && (forall i :: 0 <= i < |fs| ==> Whole(fs[i]))
    && (forall i :: 0 <= i < |fs| - 1 ==> !OpenEnded(fs[i][0]))
  }

  function Concat(fs: seq<bytes>): (d: bytes)
  {
    if fs == [] then [] else fs[0] + Concat(fs[1..])
  }

  /** Cutting a frame out of a payload keeps it whole. */
  lemma FrameCut(data: bytes, start: nat)
    requires FrameEnd(data, start).Some?
    ensures Whole(data[start..FrameEnd(data, start).value])
    ensures OpenEnded(data[start]) ==> FrameEnd(data, start).value == |data|
    ensures FrameEnd(data[start..], 0) == Some(FrameEnd(data, start).value - start)
  {
    OpenEndsLast(data, start);
    hide FrameEnd, OpenEnded;
    var end := FrameEnd(data, start).value;
    FrameLocal(data, data[start..end], -(start as int), start, end);
    FrameLocal(data, data[start..], -(start as int), start, end);
  }

  lemma OpenEndsLast(data: bytes, start: nat)
    requires FrameEnd(data, start).Some?
    ensures OpenEnded(data[start]) ==> FrameEnd(data, start).value == |data|
  {
  }

  /** The frames of a payload, or None where frameEnd reports an error. */
  function Frames(data: bytes): (fs: Option<seq<bytes>>)
    ensures fs.Some? ==> WellFramed(fs.value)
    ensures fs.Some? && fs.value == [] ==> data == []
  {
    if data == [] then Some([])
    else
      match FrameEnd(data, 0)
      case None => None
      case Some(n) =>
        FrameCut(data, 0);
        match Frames(data[n..])
        case None => None
        case Some(rest) => Some([data[..n]] + rest)
  }

  lemma FrameCutNone(data: bytes, start: nat)
    requires start <= |data|
    requires FrameEnd(data, start).None?
    ensures FrameEnd(data[start..], 0).None?
  {
    var s := data[start..];
    if FrameEnd(s, 0).Some? {
      FrameLocal(s, data, start, 0, FrameEnd(s, 0).value);
    }
  }

  /** Putting bytes behind a frame that is not open-ended does not move its end. */
  lemma FrameGrow(f: bytes, rest: bytes)
    requires Whole(f)
    requires rest == [] || !OpenEnded(f[0])
    ensures FrameEnd(f + rest, 0) == Some(|f|)
  {
    FrameLocal(f, f + rest, 0, 0, |f|);
  }

  lemma {:induction false} FramesOfConcat(fs: seq<bytes>)
    requires WellFramed(fs)
    ensures Frames(Concat(fs)) == Some(fs)
  {
    hide FrameEnd;
    if fs == [] {
    } else {
      var d, rest := Concat(fs), Concat(fs[1..]);
      if |fs| == 1 {
        assert rest == [];
      }
      FrameGrow(fs[0], rest);
      assert |fs[0]| > 0 by {
        assert Whole(fs[0]);
      }
      assert d[..|fs[0]|] == fs[0] && d[|fs[0]|..] == rest;
      FramesOfConcat(fs[1..]);
      assert fs == [fs[0]] + fs[1..];
    }
  }

  lemma {:induction false} ConcatOfFrames(data: bytes)
    requires Frames(data).Some?
    ensures Concat(Frames(data).value) == data
  {
    hide FrameEnd, Whole, OpenEnded;
    if data != [] {
      var n := FrameEnd(data, 0).value;
      ConcatOfFrames(data[n..]);
      var rest := Frames(data[n..]).value;
      assert ([data[..n]] + rest)[1..] == rest;
      assert data[..n] + data[n..] == data;
    }
  }

  /** The frames of a payload are the one way to write it as well-framed frames: parsing and joining are inverse. */
  lemma FramesExact(data: bytes, fs: seq<bytes>)
    ensures Frames(data) == Some(fs) <==> WellFramed(fs) && Concat(fs) == data
  {
    if WellFramed(fs) {
      FramesOfConcat(fs);
    }
    if Frames(data).Some? {
      ConcatOfFrames(data);
    }
  }

  lemma {:induction false} ConcatAppend(a: seq<bytes>, b: seq<bytes>)
    ensures Concat(a + b) == Concat(a) + Concat(b)
  {
    if a == [] {
      assert a + b == b;
    } else {
      ConcatAppend(a[1..], b);
      assert (a + b)[0] == a[0] && (a + b)[1..] == a[1..] + b;
      assert Concat(a + b) == a[0] + Concat(a[1..] + b);
      assert Concat(a) == a[0] + Concat(a[1..]);
      assert a[0] + (Concat(a[1..]) + Concat(b)) == a[0] + Concat(a[1..]) + Concat(b);
    }
  }

  /** One step of a loop over frames: the frame at off, then the frames behind it. */
  lemma FramesStep(data: bytes, off: nat)
    requires off < |data|
    ensures FrameEnd(data, off).None? ==> Frames(data[off..]).None?
    ensures FrameEnd(data, off).Some? ==>
      var end := FrameEnd(data, off).value;
      Frames(data[off..]) == match Frames(data[end..])
                             case None => None
                             case Some(rest) => Some([data[off..end]] + rest)
  {
    hide FrameEnd, Whole, OpenEnded;
    if FrameEnd(data, off).None? {
      FrameCutNone(data, off);
    } else {
      FrameCut(data, off);
      var end := FrameEnd(data, off).value;
      var s := data[off..];
      assert s[..end - off] == data[off..end] && s[end - off..] == data[end..];
    }
  }

  // ---- the loops ----------------------------------------------------------

  method SkipVarintsLoop(data: bytes, start: nat, count: nat) returns (end: Option<nat>)
    ensures end == SkipVarints(data, start, count)
  {
    var off := start;
    for i := 0 to count
      invariant SkipVarints(data, start, count) == SkipVarints(data, off, count - i)
    {
      match VarintAt(data, off) {
        case None => return None;
        case Some(v) => off := v.next;
      }
    }
    return Some(off);
  }

  method ParseRangesLoop(data: bytes, start: nat, count: nat, first: AckRange) returns (r: Option<RangesAt>)
    ensures r == Prepend([first], ParseRanges(data, start, count, first.smallest))
  {
    hide VarintAt;
    var off := start;
    var ranges := [first];
    for i := 0 to count
      invariant |ranges| == i + 1
      invariant Prepend([first], ParseRanges(data, start, count, first.smallest))
             == Prepend(ranges, ParseRanges(data, off, count - i, ranges[i].smallest))
    {
      var gap := VarintAt(data, off);
      if gap.None? {
        return None;
      }
      var span := VarintAt(data, gap.value.next);
      if span.None? {
        return None;
      }
      var previous := ranges[|ranges| - 1].smallest;
      if gap.value.value > previous || previous - gap.value.value < 2 {
        return None;
      }
      var nextLargest := previous - gap.value.value - 2;
      if span.value.value > nextLargest {
        return None;
      }
      var range := AckRange(nextLargest - span.value.value, nextLargest);
      PrependStep(ranges, range, ParseRanges(data, span.value.next, count - i - 1, range.smallest));
      ranges := ranges + [range];
      off := span.value.next;
    }
    assert ranges + [] == ranges;
    return Some(RangesAt(ranges, off));
  }

  lemma PrependStep(done: seq<AckRange>, range: AckRange, more: Option<RangesAt>)
    ensures Prepend(done + [range], more) == Prepend(done, Prepend([range], more))
  {
    if more.Some? {
      assert done + [range] + more.value.ranges == done + ([range] + more.value.ranges);
    }
  }

  method ReadEcn(data: bytes, start: nat) returns (r: Option<ValuesAt>)
    ensures r == VarintsAt(data, start, 3)
  {
    hide VarintAt, VarintsAt, AfterValues;
    var ecn: seq<nat> := [];
    var off := start;
    AfterNone(VarintsAt(data, start, 3));
    for i := 0 to 3
      invariant |ecn| == i
      invariant VarintsAt(data, start, 3) == AfterValues(ecn, VarintsAt(data, off, 3 - i))
    {
      AfterOne(ecn, data, off, 3 - i);
      var v := VarintAt(data, off);
      if v.None? {
        return None;
      }
      ecn := ecn + [v.value.value];
      off := v.value.next;
    }
    AfterAll(ecn, data, off);
    return Some(ValuesAt(ecn, off));
  }

  lemma AfterNone(more: Option<ValuesAt>)
    ensures AfterValues([], more) == more
  {
    assert more.Some? ==> [] + more.value.values == more.value.values;
  }

  lemma AfterOne(done: seq<nat>, data: bytes, off: nat, count: nat)
    requires count > 0
    ensures AfterValues(done, VarintsAt(data, off, count)) ==
      match VarintAt(data, off)
      case None => None
      case Some(v) => AfterValues(done + [v.value], VarintsAt(data, v.next, count - 1))
  {
    hide VarintAt;
    var v := VarintAt(data, off);
    if v.Some? && VarintsAt(data, v.value.next, count - 1).Some? {
      var rest := VarintsAt(data, v.value.next, count - 1).value.values;
      assert done + ([v.value.value] + rest) == done + [v.value.value] + rest;
    }
  }

  lemma AfterAll(done: seq<nat>, data: bytes, off: nat)
    ensures AfterValues(done, VarintsAt(data, off, 0)) == Some(ValuesAt(done, off))
  {
    assert done + [] == done;
  }

  function AfterValues(done: seq<nat>, more: Option<ValuesAt>): (r: Option<ValuesAt>)
  {
    match more
    case None => None
    case Some(m) => Some(ValuesAt(done + m.values, m.next))
  }

  method ParseAckFrame(data: bytes, start: nat, frameType: byte) returns (r: Option<AckAt>)
    ensures r == ParseAck(data, start, frameType)
  {
    hide VarintAt, ParseRanges, VarintsAt;
    var largest := VarintAt(data, start);
    if largest.None? {
      return None;
    }
    var delay := VarintAt(data, largest.value.next);
    if delay.None? {
      return None;
    }
    var rangeCount := VarintAt(data, delay.value.next);
    if rangeCount.None? {
      return None;
    }
    var off := rangeCount.value.next;
    if rangeCount.value.value > |data| - off {
      return None;
    }
    var firstRange := VarintAt(data, off);
    if firstRange.None? || firstRange.value.value > largest.value.value {
      return None;
    }
    var range := AckRange(largest.value.value - firstRange.value.value, largest.value.value);
    var ranges := ParseRangesLoop(data, firstRange.value.next, rangeCount.value.value, range);
    if ranges.None? {
      return None;
    }
    if frameType == 0x03 {
      var ecn := ReadEcn(data, ranges.value.next);
      if ecn.None? {
        return None;
      }
      return Some(AckAt(AckFrame(frameType, delay.value.value, ranges.value.ranges, ecn.value.values), ecn.value.next));
    }
    return Some(AckAt(AckFrame(frameType, delay.value.value, ranges.value.ranges, [0, 0, 0]), ranges.value.next));
  }
}
