/** Long headers (section 17.2 of RFC 9000, section 3.2 of RFC 9369) as they are written, and that the walks follow them exactly. */
module LongHeaders {
  import opened Bytes
  import opened Varint
  import opened Framing
  import opened FrameTable
  import opened Packet
  import opened Datagram
  import opened Acks
  import opened Padding
  import opened Rewriter

  // ---- packet types -------------------------------------------------------

  datatype Kind = InitialKind | ZeroRttKind | HandshakeKind | RetryKind

  /** The two type bits of each kind of packet; version 2 has its own. */
  function TypeBits(kind: Kind, version: nat): (bits: nat) {
    if version == 0x6b3343cf then
      match kind case InitialKind => 1 case ZeroRttKind => 2 case HandshakeKind => 3 case RetryKind => 0
    else
      match kind case InitialKind => 0 case ZeroRttKind => 1 case HandshakeKind => 2 case RetryKind => 3
  }

  predicate HasKind(first: byte, version: nat, kind: Kind) {
    first / 16 % 4 == TypeBits(kind, version)
  }

  lemma TypeTable(first: byte, version: nat)
    ensures QuicLongPacketType(first, version) == INITIAL <==> HasKind(first, version, InitialKind)
    ensures QuicLongPacketType(first, version) == 1 <==> HasKind(first, version, ZeroRttKind)
    ensures QuicLongPacketType(first, version) == 2 <==> HasKind(first, version, HandshakeKind)
    ensures QuicLongPacketType(first, version) == RETRY <==> HasKind(first, version, RetryKind)
  {
  }

  /** The first byte that is written: long header, fixed bit, Initial, reserved bits zero, and the number length less one. */
  lemma FirstByteForm(version: nat, pnLen: nat)
    requires 1 <= pnLen <= 4
    ensures var b := FirstByteOf(version, pnLen);
      b / 64 == 3 && HasKind(b, version, InitialKind) && b / 4 % 4 == 0 && b % 4 == pnLen - 1
  {
  }

  // ---- the invariant part -------------------------------------------------

  datatype Head = Head(first: byte, version: nat, dcid: bytes, scid: bytes)

  /** The first byte, the version, and the two connection IDs behind their lengths. */
  function PrintHead(h: Head): (b: bytes)
    requires |h.dcid| < 256 && |h.scid| < 256
  {
    [h.first] + ToBE(h.version, 4) + [|h.dcid|] + h.dcid + [|h.scid|] + h.scid
  }

  /** d is this head, with connection IDs of at most so many bytes, and then `rest`. */
  ghost predicate StartsWith(d: bytes, h: Head, rest: bytes, longest: nat) {
    && h.first >= 0x80 && h.version < 0x1_0000_0000 && |h.dcid| <= longest < 256 && |h.scid| <= longest
    && d == PrintHead(h) + rest
  }

  lemma HeadBytes(d: bytes, h: Head, rest: bytes, longest: nat)
    requires StartsWith(d, h, rest, longest)
    ensures |d| == 7 + |h.dcid| + |h.scid| + |rest| && d[0] == h.first && BE(d[1..5]) == h.version
    ensures d[5] == |h.dcid| && d[6..6 + |h.dcid|] == h.dcid
    ensures d[6 + |h.dcid|] == |h.scid| && d[7 + |h.dcid|..7 + |h.dcid| + |h.scid|] == h.scid
    ensures d[7 + |h.dcid| + |h.scid|..] == rest
  {
    var v := ToBE(h.version, 4);
    BERoundTrip(h.version, 4);
    PowerValues();
    assert d[1..5] == v;
    hide ToBE, BE;
    assert d == [h.first] + v + [|h.dcid|] + h.dcid + [|h.scid|] + h.scid + rest;
  }

  /** Every string of bytes that is long enough starts with a head. */
  lemma HeadFound(d: bytes, longest: nat) returns (h: Head, rest: bytes)
    requires |d| >= 7 && d[0] >= 0x80 && longest < 256
    requires d[5] <= longest && 6 + d[5] as int < |d|
    requires d[6 + d[5] as int] <= longest && 7 + d[5] as int + d[6 + d[5] as int] as int <= |d|
    ensures StartsWith(d, h, rest, longest)
  {
    var n: nat := d[5];
    var m: nat := d[6 + n];
    h := Head(d[0], BE(d[1..5]), d[6..6 + n], d[7 + n..7 + n + m]);
    rest := d[7 + n + m..];
    BEBound(d[1..5]);
    PowerValues();
    ToBERoundTrip(d[1..5]);
    hide ToBE, BE;
    assert |d[1..5]| == 4;
    assert d == [d[0]] + d[1..5] + [d[5]] + d[6..6 + n] + [d[6 + n]] + d[7 + n..7 + n + m] + rest;
  }

  // ---- where a long-header packet ends ------------------------------------

  /** What is left behind the packet that starts with this head, and then `rest`: by its kind. */
  function PacketBehind(h: Head, rest: bytes): (r: Option<bytes>) {
    if h.version == 0 || HasKind(h.first, h.version, RetryKind) then Some([])
    else if HasKind(h.first, h.version, InitialKind) then BehindAll([Counted, Counted], rest)
    else BehindAll([Counted], rest)
  }

  function PacketTypeOf(h: Head): (t: byte) {
    if h.version == 0 then NEGOTIATION
    else if HasKind(h.first, h.version, RetryKind) then 3
    else if HasKind(h.first, h.version, InitialKind) then 0
    else if HasKind(h.first, h.version, ZeroRttKind) then 1
    else 2
  }

  lemma LongPacketExact(d: bytes, h: Head, rest: bytes)
    requires StartsWith(d, h, rest, 20)
    ensures QuicLongPacketEnd(d) ==
      match PacketBehind(h, rest)
      case None => None
      case Some(left) => if |left| <= |d| then Some(LongPacket(PacketTypeOf(h), |d| - |left|)) else None
    ensures PacketBehind(h, rest).Some? ==> |PacketBehind(h, rest).value| <= |d|
  {
    hide *;
    var pos := HeadEnds(d, h, rest);
    PayloadIs(d, pos, true);
    PayloadIs(d, pos, false);
    EndByKind(d, h, rest, pos);
  }

  lemma HeadEnds(d: bytes, h: Head, rest: bytes) returns (pos: nat)
    requires StartsWith(d, h, rest, 20)
    ensures |d| >= 7 && d[0] >= 0x80 && d[0] == h.first && BE(d[1..5]) == h.version
    ensures pos <= |d| && ConnectionIdsEnd(d) == Some(pos) && d[pos..] == rest
  {
    HeadBytes(d, h, rest, 20);
    hide BE, ToBE;
    pos := 7 + |h.dcid| + |h.scid|;
  }

  lemma PayloadIs(d: bytes, pos: nat, initial: bool)
    requires pos <= |d|
    ensures EndsAt(d, PayloadEnd(d, pos, if initial then INITIAL else 1),
                   BehindAll(if initial then [Counted, Counted] else [Counted], d[pos..]))
    ensures PayloadEnd(d, pos, 1) == PayloadEnd(d, pos, 2)
  {
    hide SkipCounted, BehindAll;
    CountedEnds(d, pos);
    if initial {
      BehindJoin([Counted], [Counted], d[pos..]);
      assert [Counted] + [Counted] == [Counted, Counted];
      var token := BehindAll([Counted], d[pos..]);
      if token.Some? {
        CountedEnds(d, |d| - |token.value|);
      }
    }
  }

  lemma EndByKind(d: bytes, h: Head, rest: bytes, pos: nat)
    requires |d| >= 7 && d[0] >= 0x80 && d[0] == h.first && BE(d[1..5]) == h.version
    requires pos <= |d| && ConnectionIdsEnd(d) == Some(pos) && d[pos..] == rest
    requires EndsAt(d, PayloadEnd(d, pos, INITIAL), BehindAll([Counted, Counted], rest))
    requires EndsAt(d, PayloadEnd(d, pos, 1), BehindAll([Counted], rest)) && PayloadEnd(d, pos, 1) == PayloadEnd(d, pos, 2)
    ensures QuicLongPacketEnd(d) ==
      match PacketBehind(h, rest)
      case None => None
      case Some(left) => if |left| <= |d| then Some(LongPacket(PacketTypeOf(h), |d| - |left|)) else None
    ensures PacketBehind(h, rest).Some? ==> |PacketBehind(h, rest).value| <= |d|
  {
    TypeTable(h.first, h.version);
    KindsDiffer(h.first, h.version);
    hide BE, BehindAll, QuicLongPacketType, ConnectionIdsEnd, PayloadEnd, HasKind;
  }

  /** Without a head there is no packet. */
  lemma LongPacketHasHead(d: bytes) returns (h: Head, rest: bytes)
    requires QuicLongPacketEnd(d).Some?
    ensures StartsWith(d, h, rest, 20)
  {
    assert ConnectionIdsEnd(d).Some?;
    h, rest := HeadFound(d, 20);
  }

  // ---- the walk over a datagram -------------------------------------------

  /** One whole 0-RTT or Handshake packet. */
  ghost predicate WholeOther(p: bytes) {
    exists h, rest ::
      && StartsWith(p, h, rest, 20) && h.version != 0
      && (HasKind(h.first, h.version, ZeroRttKind) || HasKind(h.first, h.version, HandshakeKind))
      && BehindAll([Counted], rest) == Some([])
  }

  /** One whole Initial packet. */
  ghost predicate WholeInitial(p: bytes) {
    exists h, rest ::
      && StartsWith(p, h, rest, 20) && h.version != 0 && HasKind(h.first, h.version, InitialKind)
      && BehindAll([Counted, Counted], rest) == Some([])
  }

  /** A Retry packet; it has no length, so all that is left belongs to it. */
  ghost predicate RetryPacket(p: bytes) {
    exists h, rest :: StartsWith(p, h, rest, 20) && h.version != 0 && HasKind(h.first, h.version, RetryKind)
  }

  ghost predicate WholeOthers(ps: seq<bytes>) {
    forall i :: 0 <= i < |ps| ==> WholeOther(ps[i])
  }

  lemma KindsDiffer(first: byte, version: nat)
    ensures HasKind(first, version, InitialKind) || HasKind(first, version, ZeroRttKind)
         || HasKind(first, version, HandshakeKind) || HasKind(first, version, RetryKind)
    ensures HasKind(first, version, RetryKind) ==>
      (!HasKind(first, version, InitialKind) && !HasKind(first, version, ZeroRttKind) && !HasKind(first, version, HandshakeKind))
    ensures HasKind(first, version, InitialKind) ==>
      (!HasKind(first, version, ZeroRttKind) && !HasKind(first, version, HandshakeKind))
  {
  }

  lemma SkippedExact(p: bytes)
    ensures SkippedPacket(p) <==> WholeOther(p)
  {
    hide QuicLongPacketEnd, StartsWith, BehindAll, HasKind;
    if SkippedPacket(p) {
      var h, rest := LongPacketHasHead(p);
      LongPacketExact(p, h, rest);
      KindsDiffer(h.first, h.version);
      assert |PacketBehind(h, rest).value| == 0;
    }
    if WholeOther(p) {
      var h, rest :| StartsWith(p, h, rest, 20) && h.version != 0
        && (HasKind(h.first, h.version, ZeroRttKind) || HasKind(h.first, h.version, HandshakeKind))
        && BehindAll([Counted], rest) == Some([]);
      LongPacketExact(p, h, rest);
      KindsDiffer(h.first, h.version);
    }
  }

  lemma InitialExact(p: bytes)
    ensures QuicLongPacketEnd(p) == Some(LongPacket(INITIAL, |p|)) <==> WholeInitial(p)
  {
    hide QuicLongPacketEnd, StartsWith, BehindAll, HasKind;
    if QuicLongPacketEnd(p) == Some(LongPacket(INITIAL, |p|)) {
      var h, rest := LongPacketHasHead(p);
      LongPacketExact(p, h, rest);
      KindsDiffer(h.first, h.version);
      assert |PacketBehind(h, rest).value| == 0;
    }
    if WholeInitial(p) {
      var h, rest :| StartsWith(p, h, rest, 20) && h.version != 0 && HasKind(h.first, h.version, InitialKind)
        && BehindAll([Counted, Counted], rest) == Some([]);
      LongPacketExact(p, h, rest);
      KindsDiffer(h.first, h.version);
    }
  }

  lemma RetryExact(p: bytes)
    ensures RetryPacket(p) <==> QuicLongPacketEnd(p).Some? && QuicLongPacketEnd(p).value.packetType == RETRY
  {
    hide QuicLongPacketEnd, StartsWith, BehindAll, HasKind;
    if QuicLongPacketEnd(p).Some? && QuicLongPacketEnd(p).value.packetType == RETRY {
      var h, rest := LongPacketHasHead(p);
      LongPacketExact(p, h, rest);
    }
    if RetryPacket(p) {
      var h, rest :| StartsWith(p, h, rest, 20) && h.version != 0 && HasKind(h.first, h.version, RetryKind);
      LongPacketExact(p, h, rest);
    }
  }

  /** Behind whole packets that are neither Initial nor Retry stands a Retry. */
  ghost predicate HasRetry(data: bytes) {
    exists ps, r :: RetryBehind(data, ps, r)
  }

  ghost predicate RetryBehind(data: bytes, ps: seq<bytes>, r: bytes) {
    data == Concat(ps) + r && WholeOthers(ps) && RetryPacket(r)
  }

  lemma OthersSkipped(ps: seq<bytes>)
    ensures SkippedPackets(ps) <==> WholeOthers(ps)
  {
    hide SkippedPacket, WholeOther;
    forall i | 0 <= i < |ps|
      ensures SkippedPacket(ps[i]) <==> WholeOther(ps[i])
    {
      SkippedExact(ps[i]);
    }
  }

  lemma {:induction false} RetryLocated(done: bytes, ps: seq<bytes>, r: bytes)
    requires SkippedPackets(ps) && RetryPacket(r)
    ensures LocateFrom(done + Concat(ps) + r, |done|) == Retry
    decreases |ps|
  {
    hide QuicLongPacketEnd, LocateFrom, RetryPacket;
    if ps == [] {
      assert done + Concat(ps) + r == done + r;
      RetryHere(done, r);
    } else {
      var p, rest := ps[0], Concat(ps[1..]) + r;
      RetryLocated(done + p, ps[1..], r);
      assert done + Concat(ps) + r == done + p + rest && done + p + Concat(ps[1..]) + r == done + p + rest;
      assert SkippedPacket(p);
      SkipsOne(done, p, rest);
    }
  }

  lemma RetryHere(done: bytes, r: bytes)
    requires RetryPacket(r)
    ensures LocateFrom(done + r, |done|) == Retry
  {
    RetryExact(r);
    hide QuicLongPacketEnd, RetryPacket;
    FirstByteHigh(r);
    assert (done + r)[|done|..] == r;
  }

  lemma {:induction false} RetryFound(data: bytes, off: nat, ps: seq<bytes>) returns (all: seq<bytes>, r: bytes)
    requires off <= |data| && SkippedPackets(ps) && data[..off] == Concat(ps)
    requires LocateFrom(data, off).Retry?
    ensures data == Concat(all) + r && SkippedPackets(all) && RetryPacket(r)
    decreases |data| - off
  {
    hide QuicLongPacketEnd, Concat, RetryPacket;
    var rest := data[off..];
    var p := QuicLongPacketEnd(rest).value;
    var next := off + p.end;
    if p.packetType == RETRY {
      RetryExact(rest);
      all, r := ps, rest;
      assert data == data[..off] + rest;
    } else {
      NegotiationRunsToEnd(rest);
      assert LocateFrom(data, |data|) == NotFound;
      assert p.packetType != NEGOTIATION;
      CutOut(rest);
      assert rest[..p.end] == data[off..next];
      ConcatAppend(ps, [data[off..next]]);
      ConcatOne(data[off..next]);
      assert data[..next] == data[..off] + data[off..next];
      all, r := RetryFound(data, next, ps + [data[off..next]]);
    }
  }

  /** The walk answers Retry exactly where one stands behind whole packets that are neither Initial nor Retry. */
  lemma RetryExactly(data: bytes)
    ensures LocateQUICInitial(data).Retry? <==> HasRetry(data)
  {
    hide LocateFrom, RetryPacket, WholeOthers, SkippedPackets;
    if LocateQUICInitial(data).Retry? {
      NoneSkippedYet();
      var ps, r := RetryFound(data, 0, []);
      OthersSkipped(ps);
      assert RetryBehind(data, ps, r);
    }
    if HasRetry(data) {
      var ps, r :| RetryBehind(data, ps, r);
      OthersSkipped(ps);
      RetryLocated([], ps, r);
      assert [] + Concat(ps) + r == data;
    }
  }

  lemma NoneSkippedYet()
    ensures SkippedPackets([]) && Concat([]) == []
  {
  }

  /** It finds an Initial packet exactly where one stands behind such packets, and gives what stands around it. */
  lemma FoundExactly(data: bytes, prefix: bytes, packet: bytes, suffix: bytes)
    ensures LocateQUICInitial(data) == Found(prefix, packet, suffix)
       <==> data == prefix + packet + suffix && WholeInitial(packet) && exists ps :: WholeOthers(ps) && Concat(ps) == prefix
  {
    hide LocateQUICInitial, WholeInitial, WholeOthers, SkippedPackets, QuicLongPacketEnd, ParseInitialPacket;
    InitialExact(packet);
    if LocateQUICInitial(data) == Found(prefix, packet, suffix) {
      var ps := LocateExact(data);
      OthersSkipped(ps);
    }
    if data == prefix + packet + suffix && WholeInitial(packet) && exists ps :: WholeOthers(ps) && Concat(ps) == prefix {
      var ps :| WholeOthers(ps) && Concat(ps) == prefix;
      OthersSkipped(ps);
      LocatedBehind(ps, packet, suffix);
    }
  }

  // ---- what a Retry does --------------------------------------------------

  /** A server datagram sets the rewriter back exactly when it holds a Retry; it is passed on as it is. */
  lemma ResetsExactly(c: Crypto, st: RewriterState, data: bytes)
    requires st.initialized
    ensures !ServerStep(c, st, data).state.initialized <==> HasRetry(data)
    ensures HasRetry(data) ==> ServerStep(c, st, data) == ServerResult(RewriterState(false, 0, [], 0, 0, 0), data)
  {
    RetryExactly(data);
    hide LocateQUICInitial, ParseInitialPacket, DecryptInitial, RewriteAckFrames, EncryptInitialToPacketSize, HasRetry;
  }

  // ---- Initial packets, field by field ------------------------------------

  /** The fields of an Initial packet behind its head: a token, and a Length that the packet has room for. */
  function InitialFields(h: Head, d: bytes, rest: bytes): (p: Option<InitialParse>)
  {
    match ReadVarint(rest)
    case None => None
    case Some(t) =>
      if t.size + t.value > |rest| then None
      else
        var token, behind := rest[t.size..t.size + t.value], rest[t.size + t.value..];
        match ReadVarint(behind)
        case None => None
        case Some(l) =>
          if l.size + l.value > |behind| || |behind| - l.size > |d| then None
          else
            var pnOffset := |d| - |behind| + l.size;
            if pnOffset < 0 then None
            else Some(InitialParse(Header(h.version, h.dcid, h.scid, token), pnOffset, l.value, pnOffset + l.value))
  }

  lemma InitialParseExact(d: bytes, h: Head, rest: bytes)
    requires StartsWith(d, h, rest, 255)
    ensures ParseInitialPacket(d) == if HasKind(h.first, h.version, InitialKind) then InitialFields(h, d, rest) else None
  {
    hide *;
    var pos := FieldsStart(d, h, rest);
    TokenIs(d, pos, rest);
    LengthIs(d, h, rest, pos);
  }

  lemma FieldsStart(d: bytes, h: Head, rest: bytes) returns (pos: nat)
    requires StartsWith(d, h, rest, 255)
    ensures |d| >= 7 && d[0] >= 0x80 && d[0] == h.first && BE(d[1..5]) == h.version
    ensures pos <= |d| && d[pos..] == rest
    ensures FieldsAt(d, 5) ==
      match TokenAt(d, pos) case None => None case Some(t) => Some(FieldsRead(h.dcid, h.scid, t.value, t.next))
  {
    HeadBytes(d, h, rest, 255);
    hide BE, ToBE, TokenAt, StartsWith;
    var at := 6 + |h.dcid|;
    pos := at + 1 + |h.scid|;
    assert ConnectionIdAt(d, 5) == Some(BytesAt(h.dcid, at));
    assert ConnectionIdAt(d, at) == Some(BytesAt(h.scid, pos));
  }

  lemma TokenIs(d: bytes, pos: nat, rest: bytes)
    requires pos <= |d| && d[pos..] == rest
    ensures match ReadVarint(rest)
            case None => TokenAt(d, pos).None?
            case Some(t) =>
              if t.size + t.value > |rest| then TokenAt(d, pos).None?
              else && TokenAt(d, pos) == Some(BytesAt(rest[t.size..t.size + t.value], pos + t.size + t.value))
                   && d[pos + t.size + t.value..] == rest[t.size + t.value..]
  {
    hide ReadVarint, VarintAt;
    VarintEnds(d, pos);
    var t := ReadVarint(rest);
    if t.Some? && t.value.size + t.value.value <= |rest| {
      assert d[pos..][t.value.size + t.value.value..] == d[pos + t.value.size + t.value.value..];
      assert d[pos + t.value.size..pos + t.value.size + t.value.value] == rest[t.value.size..t.value.size + t.value.value];
    }
  }

  lemma LengthIs(d: bytes, h: Head, rest: bytes, pos: nat)
    requires |d| >= 7 && d[0] >= 0x80 && d[0] == h.first && BE(d[1..5]) == h.version && pos <= |d| && d[pos..] == rest
    requires FieldsAt(d, 5) ==
      match TokenAt(d, pos) case None => None case Some(t) => Some(FieldsRead(h.dcid, h.scid, t.value, t.next))
    requires match ReadVarint(rest)
             case None => TokenAt(d, pos).None?
             case Some(t) =>
               if t.size + t.value > |rest| then TokenAt(d, pos).None?
               else && TokenAt(d, pos) == Some(BytesAt(rest[t.size..t.size + t.value], pos + t.size + t.value))
                    && d[pos + t.size + t.value..] == rest[t.size + t.value..]
    ensures ParseInitialPacket(d) == if HasKind(h.first, h.version, InitialKind) then InitialFields(h, d, rest) else None
  {
    TypeTable(h.first, h.version);
    hide BE, ReadVarint, VarintAt, QuicLongPacketType, HasKind, FieldsAt, TokenAt;
    var t := ReadVarint(rest);
    if t.Some? && t.value.size + t.value.value <= |rest| {
      VarintEnds(d, pos + t.value.size + t.value.value);
    }
  }
}
