/** The frame formats of section 19 of RFC 9000 and section 4 of RFC 9221 as a table, and that frameEnd follows it exactly. */
module FrameTable {
  import opened Bytes
  import opened Varint
  import opened Framing
  import opened Reassembly
  import opened Acks

  // ---- the table ----------------------------------------------------------

  /** A field: an integer, a counted string, a connection ID behind its length byte, so many bytes, or all that is left. */
  datatype Field = V | Counted | ConnectionId | Fixed(size: nat) | Rest

  /** The fields behind the type byte; None for types that have no place in the table, and for ACK, whose length varies. */
  function Layout(t: byte): (fields: Option<seq<Field>>) {
    match t
    case 0x00 => Some([])                                          // PADDING
    case 0x01 => Some([])                                          // PING
    case 0x04 => Some([V, V, V])                                   // RESET_STREAM
    case 0x05 => Some([V, V])                                      // STOP_SENDING
    case 0x06 => Some([V, Counted])                                // CRYPTO
    case 0x07 => Some([Counted])                                   // NEW_TOKEN
    case 0x08 => Some([V, Rest])                                   // STREAM
    case 0x09 => Some([V, Rest])                                   // STREAM, last
    case 0x0a => Some([V, Counted])                                // STREAM with length
    case 0x0b => Some([V, Counted])                                // STREAM with length, last
    case 0x0c => Some([V, V, Rest])                                // STREAM with offset
    case 0x0d => Some([V, V, Rest])                                // STREAM with offset, last
    case 0x0e => Some([V, V, Counted])                             // STREAM with offset and length
    case 0x0f => Some([V, V, Counted])                             // STREAM with offset and length, last
    case 0x10 => Some([V])                                         // MAX_DATA
    case 0x11 => Some([V, V])                                      // MAX_STREAM_DATA
    case 0x12 => Some([V])                                         // MAX_STREAMS, bidirectional
    case 0x13 => Some([V])                                         // MAX_STREAMS, unidirectional
    case 0x14 => Some([V])                                         // DATA_BLOCKED
    case 0x15 => Some([V, V])                                      // STREAM_DATA_BLOCKED
    case 0x16 => Some([V])                                         // STREAMS_BLOCKED, bidirectional
    case 0x17 => Some([V])                                         // STREAMS_BLOCKED, unidirectional
    case 0x18 => Some([V, V, ConnectionId, Fixed(16)])             // NEW_CONNECTION_ID
    case 0x19 => Some([V])                                         // RETIRE_CONNECTION_ID
    case 0x1a => Some([Fixed(8)])                                  // PATH_CHALLENGE
    case 0x1b => Some([Fixed(8)])                                  // PATH_RESPONSE
    case 0x1c => Some([V, V, Counted])                             // CONNECTION_CLOSE, transport
    case 0x1d => Some([V, Counted])                                // CONNECTION_CLOSE, application
    case 0x1e => Some([])                                          // HANDSHAKE_DONE
    case 0x30 => Some([Rest])                                      // DATAGRAM
    case 0x31 => Some([Counted])                                   // DATAGRAM with length
    case _ => None
  }

  /** What is left of s behind one field, if s starts with one. */
  function Behind(field: Field, s: bytes): (rest: Option<bytes>)
  {
    match field
    case V => if ReadVarint(s).Some? then Some(s[ReadVarint(s).value.size..]) else None
    case Counted =>
      if ReadVarint(s).Some? && ReadVarint(s).value.size + ReadVarint(s).value.value <= |s|
      then Some(s[ReadVarint(s).value.size + ReadVarint(s).value.value..]) else None
    case ConnectionId => if |s| >= 1 && s[0] <= 20 && |s| >= 1 + s[0] as int then Some(s[1 + s[0] as int..]) else None
    case Fixed(n) => if |s| >= n then Some(s[n..]) else None
    case Rest => Some([])
  }

  /** What is left of s behind these fields. */
  function BehindAll(fields: seq<Field>, s: bytes): (rest: Option<bytes>)
  {
    if fields == [] then Some(s)
    else
      match Behind(fields[0], s)
      case None => None
      case Some(rest) => BehindAll(fields[1..], rest)
  }

  // ---- acknowledgements ---------------------------------------------------

  /** So many integers in a row: their values, and what is left. */
  datatype Integers = Integers(values: seq<nat>, rest: bytes)

  function IntegersOf(s: bytes, count: nat): (r: Option<Integers>)
    ensures r.Some? ==> |r.value.values| == count
    decreases count
  {
    if count == 0 then Some(Integers([], s))
    else
      match ReadVarint(s)
      case None => None
      case Some(v) =>
        match IntegersOf(s[v.size..], count - 1)
        case None => None
        case Some(more) => Some(Integers([v.value] + more.values, more.rest))
  }

  /** Gaps and lengths, one behind the other, below a smallest number (section 19.3.1): no number falls below zero. */
  predicate StaysAbove(smallest: nat, vs: seq<nat>)
    requires |vs| % 2 == 0
    decreases |vs|
  {
    vs == [] || (vs[0] + 2 + vs[1] <= smallest && StaysAbove(smallest - vs[0] - 2 - vs[1], vs[2..]))
  }

  /** The ranges they stand for. */
  function RangesBelow(smallest: nat, vs: seq<nat>): (ranges: seq<AckRange>)
    requires |vs| % 2 == 0 && StaysAbove(smallest, vs)
    decreases |vs|
  {
    if vs == [] then []
    else
      var largest := smallest - vs[0] - 2;
      [AckRange(largest - vs[1], largest)] + RangesBelow(largest - vs[1], vs[2..])
  }

  /** The first range, and those behind it. */
  function RangesFrom(largest: nat, first: nat, vs: seq<nat>): (ranges: Option<seq<AckRange>>) {
    if |vs| % 2 != 0 || first > largest || !StaysAbove(largest - first, vs) then None
    else Some([AckRange(largest - first, largest)] + RangesBelow(largest - first, vs))
  }

  datatype AckRead = AckRead(ack: AckFrame, rest: bytes)

  /**
   * The fields of an ACK frame: largest number, delay, range count and first range; a gap and a length for each further
   * range; and three counts where the type is 0x03. They make an ACK when no range falls below zero.
   */
  function AckFields(t: byte, s: bytes): (r: Option<AckRead>)
  {
    match IntegersOf(s, 4)
    case None => None
    case Some(head) =>
      var largest, delay, count, first := head.values[0], head.values[1], head.values[2], head.values[3];
      match IntegersOf(head.rest, 2 * count)
      case None => None
      case Some(further) =>
        match IntegersOf(further.rest, if t == 0x03 then 3 else 0)
        case None => None
        case Some(counts) =>
          match RangesFrom(largest, first, further.values)
          case None => None
          case Some(ranges) =>
            Some(AckRead(AckFrame(t, delay, ranges, if t == 0x03 then counts.values else [0, 0, 0]), counts.rest))
  }

  // ---- frameEnd follows the table -----------------------------------------

  /** What is left behind the frame that s starts with, by the table. */
  function FrameBehind(s: bytes): (rest: Option<bytes>) {
    if s == [] then None
    else if s[0] == 0x02 || s[0] == 0x03 then
      match AckFields(s[0], s[1..])
      case None => None
      case Some(a) => Some(a.rest)
    else
      match Layout(s[0])
      case None => None
      case Some(fields) => BehindAll(fields, s[1..])
  }

  /** `end` is the offset at which `rest` stands in data. */
  ghost predicate EndsAt(data: bytes, end: Option<nat>, rest: Option<bytes>) {
    match rest
    case None => end.None?
    case Some(r) => |r| <= |data| && data[|data| - |r|..] == r && end == Some(|data| - |r|)
  }

  lemma VarintEnds(data: bytes, off: nat)
    requires off <= |data|
    ensures VarintAt(data, off) == match ReadVarint(data[off..]) case None => None case Some(v) => Some(At(v.value, off + v.size))
  {
  }

  lemma {:induction false} SkipEnds(data: bytes, off: nat, count: nat, fields: seq<Field>)
    requires off <= |data| && |fields| == count && forall i :: 0 <= i < count ==> fields[i] == V
    ensures EndsAt(data, SkipVarints(data, off, count), BehindAll(fields, data[off..]))
    decreases count
  {
    hide ReadVarint, VarintAt;
    if count > 0 {
      VarintEnds(data, off);
      var v := ReadVarint(data[off..]);
      if v.Some? {
        assert data[off..][v.value.size..] == data[off + v.value.size..];
        SkipEnds(data, off + v.value.size, count - 1, fields[1..]);
      }
    }
  }

  lemma CountedEnds(data: bytes, off: nat)
    requires off <= |data|
    ensures EndsAt(data, SkipCounted(data, off), BehindAll([Counted], data[off..]))
  {
    hide ReadVarint, VarintAt;
    VarintEnds(data, off);
    OneField(Counted, data[off..]);
    var v := ReadVarint(data[off..]);
    if v.Some? && v.value.size + v.value.value <= |data| - off {
      assert data[off..][v.value.size + v.value.value..] == data[off + v.value.size + v.value.value..];
    }
  }

  lemma OneField(field: Field, s: bytes)
    ensures BehindAll([field], s) == Behind(field, s)
  {
    hide Behind;
    assert [field][1..] == [];
  }

  lemma {:induction false} BehindJoin(a: seq<Field>, b: seq<Field>, s: bytes)
    ensures BehindAll(a + b, s) == match BehindAll(a, s) case None => None case Some(rest) => BehindAll(b, rest)
  {
    hide Behind;
    if a == [] {
      assert a + b == b;
    } else {
      assert (a + b)[0] == a[0] && (a + b)[1..] == a[1..] + b;
      var rest := Behind(a[0], s);
      if rest.Some? {
        BehindJoin(a[1..], b, rest.value);
      }
    }
  }

  /** Integers, then a counted string. */
  lemma ThenCounted(data: bytes, off: nat, vs: seq<Field>)
    requires off <= |data| && forall i :: 0 <= i < |vs| ==> vs[i] == V
    ensures EndsAt(data, match SkipVarints(data, off, |vs|) case None => None case Some(next) => SkipCounted(data, next),
                   BehindAll(vs + [Counted], data[off..]))
  {
    hide SkipVarints, SkipCounted, Behind, BehindAll;
    SkipEnds(data, off, |vs|, vs);
    BehindJoin(vs, [Counted], data[off..]);
    var rest := BehindAll(vs, data[off..]);
    if rest.Some? {
      CountedEnds(data, |data| - |rest.value|);
    }
  }

  /** Integers, then all that is left. */
  lemma ThenRest(data: bytes, off: nat, vs: seq<Field>)
    requires off <= |data| && forall i :: 0 <= i < |vs| ==> vs[i] == V
    ensures EndsAt(data, match SkipVarints(data, off, |vs|) case None => None case Some(_) => Some(|data|),
                   BehindAll(vs + [Rest], data[off..]))
  {
    hide SkipVarints, BehindAll;
    SkipEnds(data, off, |vs|, vs);
    BehindJoin(vs, [Rest], data[off..]);
    var rest := BehindAll(vs, data[off..]);
    if rest.Some? {
      OneField(Rest, rest.value);
    }
  }

  lemma CryptoIsVarintCounted(data: bytes, off: nat)
    ensures CryptoEnd(data, off) == match SkipVarints(data, off, 1) case None => None case Some(next) => SkipCounted(data, next)
  {
    hide VarintAt, SkipCounted;
    if VarintAt(data, off).Some? {
      assert VarintsAt(data, VarintAt(data, off).value.next, 0).Some?;
    }
  }

  lemma ConnectionIdEnds(data: bytes, off: nat)
    requires off <= |data|
    ensures EndsAt(data, NewConnectionIdEnd(data, off), BehindAll([V, V] + [ConnectionId, Fixed(16)], data[off..]))
  {
    hide SkipVarints, BehindAll;
    SkipEnds(data, off, 2, [V, V]);
    BehindJoin([V, V], [ConnectionId, Fixed(16)], data[off..]);
    var rest := BehindAll([V, V], data[off..]);
    if rest.Some? {
      var next := |data| - |rest.value|;
      assert rest.value == data[next..];
      IdAndToken(data, next);
    }
  }

  lemma IdAndToken(data: bytes, next: nat)
    requires next <= |data|
    ensures EndsAt(data,
      if next >= |data| || data[next] > 20 || next + 1 + data[next] + 16 > |data| then None else Some(next + 1 + data[next] + 16),
      BehindAll([ConnectionId, Fixed(16)], data[next..]))
  {
    hide BehindAll;
    BehindJoin([ConnectionId], [Fixed(16)], data[next..]);
    assert [ConnectionId] + [Fixed(16)] == [ConnectionId, Fixed(16)];
    OneField(ConnectionId, data[next..]);
    var s := data[next..];
    if |s| >= 1 && s[0] <= 20 && |s| >= 1 + s[0] as int {
      var t := s[1 + s[0] as int..];
      OneField(Fixed(16), t);
      if |t| >= 16 {
        assert t[16..] == data[next + 1 + data[next] + 16..];
      }
    }
  }

  // ---- ACK ----------------------------------------------------------------

  lemma {:induction false} IntegersAre(data: bytes, off: nat, count: nat)
    requires off <= |data|
    ensures match IntegersOf(data[off..], count)
            case None => VarintsAt(data, off, count).None?
            case Some(r) => && |r.rest| <= |data| && data[|data| - |r.rest|..] == r.rest
                            && VarintsAt(data, off, count) == Some(ValuesAt(r.values, |data| - |r.rest|))
    decreases count
  {
    hide ReadVarint, VarintAt;
    if count > 0 {
      VarintEnds(data, off);
      var v := ReadVarint(data[off..]);
      if v.Some? {
        assert data[off..][v.value.size..] == data[off + v.value.size..];
        IntegersAre(data, off + v.value.size, count - 1);
      }
    }
  }

  /** The range loop reads two integers a turn and stops where a range would fall below zero. */
  ghost predicate RangesMatch(data: bytes, off: nat, count: nat, smallest: nat)
    requires off <= |data|
  {
    match IntegersOf(data[off..], 2 * count)
    case None => ParseRanges(data, off, count, smallest).None?
    case Some(r) =>
      if StaysAbove(smallest, r.values)
      then && |r.rest| <= |data| && data[|data| - |r.rest|..] == r.rest
           && ParseRanges(data, off, count, smallest) == Some(RangesAt(RangesBelow(smallest, r.values), |data| - |r.rest|))
      else ParseRanges(data, off, count, smallest).None?
  }

  lemma {:induction false} RangesAre(data: bytes, off: nat, count: nat, smallest: nat)
    requires off <= |data|
    ensures RangesMatch(data, off, count, smallest)
    decreases count
  {
    hide ReadVarint, VarintAt, RangesMatch;
    if count == 0 {
      NoRangesMatch(data, off, smallest);
    } else {
      VarintEnds(data, off);
      TwoMore(data[off..], 2 * count - 2);
      var gap := VarintAt(data, off);
      if gap.None? {
        UnreadRange(data, off, count, smallest);
      } else {
        var next := gap.value.next;
        assert data[off..][next - off..] == data[next..];
        VarintEnds(data, next);
        var span := VarintAt(data, next);
        if span.None? {
          UnreadRange(data, off, count, smallest);
        } else {
          assert data[next..][span.value.next - next..] == data[span.value.next..];
          if gap.value.value + 2 + span.value.value <= smallest {
            RangesAre(data, span.value.next, count - 1, smallest - gap.value.value - 2 - span.value.value);
          }
          RangeTurn(data, off, count, smallest, gap.value, span.value);
        }
      }
    }
  }

  lemma NoRangesMatch(data: bytes, off: nat, smallest: nat)
    requires off <= |data|
    ensures RangesMatch(data, off, 0, smallest)
  {
  }

  lemma UnreadRange(data: bytes, off: nat, count: nat, smallest: nat)
    requires off <= |data| && count > 0 && IntegersOf(data[off..], 2 * count).None?
    requires VarintAt(data, off).None? || VarintAt(data, VarintAt(data, off).value.next).None?
    ensures RangesMatch(data, off, count, smallest)
  {
    hide VarintAt, IntegersOf;
  }

  lemma RangeTurn(data: bytes, off: nat, count: nat, smallest: nat, gap: At, span: At)
    requires off <= |data| && count > 0 && VarintAt(data, off) == Some(gap) && VarintAt(data, gap.next) == Some(span)
    requires IntegersOf(data[off..], 2 * count) ==
      match IntegersOf(data[span.next..], 2 * count - 2)
      case None => None
      case Some(more) => Some(Integers([gap.value] + ([span.value] + more.values), more.rest))
    requires gap.value + 2 + span.value <= smallest ==>
      RangesMatch(data, span.next, count - 1, smallest - gap.value - 2 - span.value)
    ensures RangesMatch(data, off, count, smallest)
  {
    hide VarintAt, IntegersOf, StaysAbove, RangesBelow;
    var more := IntegersOf(data[span.next..], 2 * count - 2);
    if more.Some? {
      PairFirst(smallest, gap.value, span.value, more.value.values);
    }
  }

  lemma TwoMore(s: bytes, count: nat)
    ensures IntegersOf(s, count + 2) ==
      match ReadVarint(s)
      case None => None
      case Some(a) =>
        match ReadVarint(s[a.size..])
        case None => None
        case Some(b) =>
          match IntegersOf(s[a.size..][b.size..], count)
          case None => None
          case Some(more) => Some(Integers([a.value] + ([b.value] + more.values), more.rest))
  {
    hide ReadVarint;
  }

  lemma PairFirst(smallest: nat, gap: nat, span: nat, rest: seq<nat>)
    requires |rest| % 2 == 0
    ensures var vs := [gap] + ([span] + rest);
      && (StaysAbove(smallest, vs) <==> gap + 2 + span <= smallest && StaysAbove(smallest - gap - 2 - span, rest))
      && (StaysAbove(smallest, vs) ==>
            RangesBelow(smallest, vs)
            == [AckRange(smallest - gap - 2 - span, smallest - gap - 2)] + RangesBelow(smallest - gap - 2 - span, rest))
  {
    var vs := [gap] + ([span] + rest);
    assert vs[2..] == rest;
  }

  lemma {:induction false} IntegersTakeBytes(s: bytes, count: nat)
    ensures IntegersOf(s, count).Some? ==> |IntegersOf(s, count).value.rest| + count <= |s|
    decreases count
  {
    hide ReadVarint;
    if count > 0 && ReadVarint(s).Some? {
      IntegersTakeBytes(s[ReadVarint(s).value.size..], count - 1);
    }
  }

  /** The range count, the first range, and the ranges behind it. */
  ghost predicate AckRangesMatch(data: bytes, off: nat, largest: nat)
    requires off <= |data|
  {
    match IntegersOf(data[off..], 2)
    case None => ParseAckRanges(data, off, largest).None?
    case Some(head) =>
      FirstAndFurther(data, ParseAckRanges(data, off, largest), largest, head.values[0], head.values[1], head.rest)
  }

  /** The first range and so many of the integers that follow, or nothing where one falls below zero. */
  ghost predicate FirstAndFurther(data: bytes, parsed: Option<RangesAt>, largest: nat, count: nat, first: nat, rest: bytes) {
    match IntegersOf(rest, 2 * count)
    case None => parsed.None?
    case Some(r) =>
      if first <= largest && StaysAbove(largest - first, r.values)
      then && |r.rest| <= |data| && data[|data| - |r.rest|..] == r.rest
           && parsed == Some(RangesAt([AckRange(largest - first, largest)] + RangesBelow(largest - first, r.values), |data| - |r.rest|))
      else parsed.None?
  }

  lemma AckRangesAre(data: bytes, off: nat, largest: nat)
    requires off <= |data|
    ensures AckRangesMatch(data, off, largest)
  {
    hide ReadVarint, VarintAt, StaysAbove, RangesBelow, ParseRanges, IntegersOf;
    TwoMore(data[off..], 0);
    NoIntegers();
    VarintEnds(data, off);
    var count := VarintAt(data, off);
    if count.Some? {
      var next := count.value.next;
      assert data[off..][next - off..] == data[next..];
      VarintEnds(data, next);
      var first := VarintAt(data, next);
      if first.Some? {
        var after := first.value.next;
        assert data[next..][after - next..] == data[after..];
        var head := IntegersOf(data[off..], 2).value;
        assert head.values == [count.value.value, first.value.value] && head.rest == data[after..];
        IntegersTakeBytes(head.rest, 2 * head.values[0]);
        if first.value.value <= largest {
          RangesAre(data, after, count.value.value, largest - first.value.value);
        }
      }
    }
  }

  lemma NoIntegers()
    ensures forall s: bytes :: IntegersOf(s, 0) == Some(Integers([], s))
  {
  }

  /** The whole ACK frame. */
  ghost predicate AckMatches(data: bytes, off: nat, t: byte)
    requires off <= |data|
  {
    match AckFields(t, data[off..])
    case None => ParseAck(data, off, t).None?
    case Some(a) =>
      && |a.rest| <= |data| && data[|data| - |a.rest|..] == a.rest
      && ParseAck(data, off, t) == Some(AckAt(a.ack, |data| - |a.rest|))
  }

  lemma AckIsRead(data: bytes, off: nat, t: byte)
    requires off <= |data|
    ensures AckMatches(data, off, t)
  {
    hide ReadVarint, VarintAt, VarintsAt, StaysAbove, RangesBelow, ParseAckRanges, IntegersOf;
    TwoMore(data[off..], 2);
    VarintEnds(data, off);
    var largest := VarintAt(data, off);
    if largest.Some? {
      var next := largest.value.next;
      assert data[off..][next - off..] == data[next..];
      VarintEnds(data, next);
      var delay := VarintAt(data, next);
      if delay.Some? {
        var after := delay.value.next;
        assert data[next..][after - next..] == data[after..];
        AckRangesAre(data, after, largest.value.value);
        RangesThenCounts(data, off, t, largest.value, delay.value);
      }
    }
  }

  lemma RangesThenCounts(data: bytes, off: nat, t: byte, largest: At, delay: At)
    requires off <= |data| && VarintAt(data, off) == Some(largest) && VarintAt(data, largest.next) == Some(delay)
    requires AckRangesMatch(data, delay.next, largest.value)
    requires IntegersOf(data[off..], 4) ==
      match IntegersOf(data[delay.next..], 2)
      case None => None
      case Some(more) => Some(Integers([largest.value] + ([delay.value] + more.values), more.rest))
    ensures AckMatches(data, off, t)
  {
    hide VarintAt, VarintsAt, StaysAbove, RangesBelow, ParseAckRanges, IntegersOf;
    var pair := IntegersOf(data[delay.next..], 2);
    if pair.Some? {
      var head := IntegersOf(data[off..], 4).value;
      assert head.values == [largest.value, delay.value, pair.value.values[0], pair.value.values[1]];
      var r := IntegersOf(head.rest, 2 * head.values[2]);
      if r.Some? && head.values[3] <= largest.value && StaysAbove(largest.value - head.values[3], r.value.values) {
        CountsBehind(data, t, r.value.rest);
      }
    }
  }

  /** The three counts, where the type has them. */
  lemma CountsBehind(data: bytes, t: byte, rest: bytes)
    requires |rest| <= |data| && data[|data| - |rest|..] == rest
    ensures match IntegersOf(rest, if t == 0x03 then 3 else 0)
            case None => t == 0x03 && VarintsAt(data, |data| - |rest|, 3).None?
            case Some(ecn) =>
              && |ecn.rest| <= |data| && data[|data| - |ecn.rest|..] == ecn.rest
              && (t == 0x03 ==> VarintsAt(data, |data| - |rest|, 3) == Some(ValuesAt(ecn.values, |data| - |ecn.rest|)))
              && (t != 0x03 ==> ecn == Integers([], rest))
  {
    hide IntegersOf, VarintsAt;
    IntegersAre(data, |data| - |rest|, 3);
    NoIntegers();
  }

  // ---- the whole table ----------------------------------------------------

  /** frameEnd ends every frame where the table says, and refuses what is not in it. */
  lemma FrameEndExact(data: bytes, start: nat)
    requires start <= |data|
    ensures EndsAt(data, FrameEnd(data, start), FrameBehind(data[start..]))
  {
    hide SkipVarints, SkipCounted, ParseAck, CryptoEnd, NewConnectionIdEnd, BehindAll, AckFields;
    if start < |data| {
      var t, off := data[start], start + 1;
      assert data[start..][1..] == data[off..];
      if t == 0x02 || t == 0x03 {
        AckIsRead(data, off, t);
      } else {
        LaidOut(data, off, t);
      }
    }
  }

  lemma NoFieldsLeft(data: bytes, off: nat)
    requires off <= |data|
    ensures EndsAt(data, Some(off), BehindAll([], data[off..]))
  {
  }

  lemma EightBytes(data: bytes, off: nat)
    requires off <= |data|
    ensures EndsAt(data, if off + 8 > |data| then None else Some(off + 8), BehindAll([Fixed(8)], data[off..]))
  {
    OneField(Fixed(8), data[off..]);
    if off + 8 <= |data| {
      assert data[off..][8..] == data[off + 8..];
    }
  }

  /** The rows without ACK, one kind of layout after the other. */
  lemma LaidOut(data: bytes, off: nat, t: byte)
    requires 0 < off <= |data| && data[off - 1] == t && t != 0x02 && t != 0x03
    ensures match Layout(t)
            case None => FrameEnd(data, off - 1).None?
            case Some(fields) => EndsAt(data, FrameEnd(data, off - 1), BehindAll(fields, data[off..]))
  {
    hide SkipVarints, SkipCounted, CryptoEnd, NewConnectionIdEnd, BehindAll, EndsAt;
    if t == 0x00 || t == 0x01 || t == 0x1e {
      NoFieldsLeft(data, off);
    } else if t == 0x04 {
      SkipEnds(data, off, 3, [V, V, V]);
    } else if t == 0x05 || t == 0x11 || t == 0x15 {
      SkipEnds(data, off, 2, [V, V]);
    } else if t == 0x06 {
      CryptoIsVarintCounted(data, off);
      ThenCounted(data, off, [V]);
      assert [V] + [Counted] == [V, Counted];
    } else if t == 0x07 || t == 0x31 {
      CountedEnds(data, off);
    } else if 0x08 <= t <= 0x0f {
      StreamLaidOut(data, off, t);
    } else if t == 0x18 {
      ConnectionIdEnds(data, off);
      assert [V, V] + [ConnectionId, Fixed(16)] == [V, V, ConnectionId, Fixed(16)];
    } else if t == 0x1a || t == 0x1b {
      EightBytes(data, off);
    } else if t == 0x1c || t == 0x1d {
      CloseLaidOut(data, off, t);
    } else if t == 0x30 {
      AllLeft(data, off);
    } else if 0x10 <= t <= 0x19 {
      SkipEnds(data, off, 1, [V]);
    }
  }

  lemma AllLeft(data: bytes, off: nat)
    requires off <= |data|
    ensures EndsAt(data, Some(|data|), BehindAll([Rest], data[off..]))
  {
    OneField(Rest, data[off..]);
  }

  lemma StreamLaidOut(data: bytes, off: nat, t: byte)
    requires off <= |data| && 0x08 <= t <= 0x0f
    ensures EndsAt(data, StreamEnd(data, off, t), BehindAll(Layout(t).value, data[off..]))
  {
    hide SkipVarints, SkipCounted, BehindAll, EndsAt;
    var vs: seq<Field> := if 0x0c <= t then [V, V] else [V];
    assert t / 4 % 2 != 0 <==> 0x0c <= t;
    assert t / 2 % 2 == 0 <==> t == 0x08 || t == 0x09 || t == 0x0c || t == 0x0d;
    if t / 2 % 2 == 0 {
      ThenRest(data, off, vs);
      assert vs + [Rest] == Layout(t).value;
    } else {
      ThenCounted(data, off, vs);
      assert vs + [Counted] == Layout(t).value;
    }
  }

  lemma CloseLaidOut(data: bytes, off: nat, t: byte)
    requires off <= |data| && (t == 0x1c || t == 0x1d)
    ensures EndsAt(data, CloseEnd(data, off, t), BehindAll(Layout(t).value, data[off..]))
  {
    hide SkipVarints, SkipCounted, BehindAll, EndsAt;
    var vs: seq<Field> := if t == 0x1c then [V, V] else [V];
    ThenCounted(data, off, vs);
    assert vs + [Counted] == Layout(t).value;
  }

  // ---- printed frames -----------------------------------------------------

  /** p is a field of this kind as it is written. */
  ghost predicate Prints(field: Field, p: bytes) {
    match field
    case V => exists v: nat :: v < MAX_VARINT && p == WriteVarint(v)
    case Counted => exists b: bytes :: |b| < MAX_VARINT && p == WriteVarint(|b|) + b
    case ConnectionId => |p| >= 1 && p[0] <= 20 && |p| == 1 + p[0] as int
    case Fixed(n) => |p| == n
    case Rest => false
  }

  lemma PrintedField(field: Field, p: bytes, rest: bytes)
    requires Prints(field, p)
    ensures Behind(field, p + rest) == Some(rest)
  {
    hide ReadVarint, WriteVarint, VarintLen;
    match field
    case V =>
      var v: nat :| v < MAX_VARINT && p == WriteVarint(v);
      WriteRead(v, rest);
      assert (p + rest)[|p|..] == rest;
    case Counted =>
      var b: bytes :| |b| < MAX_VARINT && p == WriteVarint(|b|) + b;
      WriteRead(|b|, b + rest);
      assert p + rest == WriteVarint(|b|) + (b + rest);
      assert (p + rest)[|p|..] == rest;
    case ConnectionId => assert (p + rest)[|p|..] == rest;
    case Fixed(n) => assert (p + rest)[|p|..] == rest;
  }

  lemma {:induction false} PrintedFields(fields: seq<Field>, ps: seq<bytes>, rest: bytes)
    requires |ps| == |fields| && forall i :: 0 <= i < |ps| ==> Prints(fields[i], ps[i])
    ensures BehindAll(fields, Concat(ps) + rest) == Some(rest)
    decreases |ps|
  {
    hide Behind, Prints;
    if ps == [] {
      assert [] + rest == rest;
    } else {
      var more := Concat(ps[1..]) + rest;
      assert Concat(ps) + rest == ps[0] + more;
      PrintedField(fields[0], ps[0], more);
      PrintedFields(fields[1..], ps[1..], rest);
    }
  }

  /** A frame written field by field ends where its last field does, whatever stands behind it. */
  lemma PrintedFrameEnds(t: byte, ps: seq<bytes>, rest: bytes)
    requires t != 0x02 && t != 0x03 && Layout(t).Some? && |ps| == |Layout(t).value|
    requires forall i :: 0 <= i < |ps| ==> Prints(Layout(t).value[i], ps[i])
    ensures FrameEnd([t] + Concat(ps) + rest, 0) == Some(1 + |Concat(ps)|)
  {
    hide FrameEnd, Layout, BehindAll, Prints;
    var data := [t] + Concat(ps) + rest;
    FrameEndExact(data, 0);
    assert data[0..] == data && data[1..] == Concat(ps) + rest;
    PrintedFields(Layout(t).value, ps, rest);
  }

  /** A type that is not in the table is refused. */
  lemma UnknownRefused(data: bytes, first: nat)
    requires data != [] && data[0] > 0x1e && data[0] != 0x30 && data[0] != 0x31
    ensures FrameEnd(data, 0).None? && RewriteAckFrames(data, first).None?
  {
    hide FrameEnd;
    FrameEndExact(data, 0);
    assert data[0..] == data;
  }

  /** An ACK frame, with ECN counts or without, is rewritten as what its fields say. */
  lemma AckFrameExact(f: bytes, first: nat)
    requires Whole(f) && (f[0] == 0x02 || f[0] == 0x03)
    ensures AckFields(f[0], f[1..]).Some?
    ensures RewriteAckFrames(f, first) == PrintAck(RemapAck(AckFields(f[0], f[1..]).value.ack, first))
  {
    hide ParseAck, AckFields, RemapAck, PrintAck;
    AckIsRead(f, 1, f[0]);
    AloneRewritten(f, first);
  }

  lemma AloneRewritten(f: bytes, first: nat)
    requires Whole(f)
    ensures RewriteAckFrames(f, first) == RewriteFrame(f, first)
  {
    hide RewriteFrame;
    assert f[..|f|] == f && f[|f|..] == [];
    RewriteNothing(first);
    if RewriteFrame(f, first).Some? {
      assert RewriteFrame(f, first).value + [] == RewriteFrame(f, first).value;
    }
  }

  lemma RewriteNothing(first: nat)
    ensures RewriteAckFrames([], first) == Some([])
  {
  }

  /** The stretch of stream that a CRYPTO frame carries: its first integer is the offset, its data are what its second counts. */
  lemma SegmentExact(f: bytes)
    requires Whole(f) && f[0] == 0x06
    ensures IsCrypto(f) && ReadVarint(f[1..]).Some?
    ensures var offset := ReadVarint(f[1..]).value;
      && ReadVarint(f[1 + offset.size..]).Some?
      && var length := ReadVarint(f[1 + offset.size..]).value;
      && SegmentOf(f).offset == offset.value && |SegmentOf(f).data| == length.value
      && SegmentOf(f).data == f[1 + offset.size + length.size..]
  {
    hide ReadVarint;
    VarintEnds(f, 1);
    VarintEnds(f, 1 + ReadVarint(f[1..]).value.size);
  }
}
