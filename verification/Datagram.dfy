/** Coalesced packets (section 12.2 of RFC 9000): quicLongPacketEnd and locateQUICInitial. */
module Datagram {
  import opened Bytes
  import opened Varint
  import opened Framing
  import opened Packet

  const INITIAL: byte := 0
  const RETRY: byte := 3
  const NEGOTIATION: byte := 0xff

  datatype LongPacket = LongPacket(packetType: byte, end: nat)

  /** The offset behind the two connection IDs, of at most 20 bytes each; the first must leave at least one byte. */
  function ConnectionIdsEnd(data: bytes): (end: Option<nat>)
    requires |data| >= 7
    ensures end.Some? ==> 7 <= end.value <= |data|
  {
    var dcidLen: nat := data[5];
    if dcidLen > 20 || 6 + dcidLen >= |data| then None
    else
      var scidLen: nat := data[6 + dcidLen];
      if scidLen > 20 || 7 + dcidLen + scidLen > |data| then None else Some(7 + dcidLen + scidLen)
  }

  /** Where the token of an Initial packet ends; other packets have none. */
  function TokenEnd(data: bytes, off: nat, packetType: byte): (end: Option<nat>)
    ensures end.Some? ==> off <= end.value && (off <= |data| ==> end.value <= |data|)
  {
    if packetType != INITIAL then Some(off)
    else
      SkipCounted(data, off)
  }

  /** Where the payload ends, behind the token and the Length field. */
  function PayloadEnd(data: bytes, pos: nat, packetType: byte): (end: Option<nat>)
    ensures end.Some? ==> pos < end.value <= |data|
  {
    match TokenEnd(data, pos, packetType)
    case None => None
    case Some(off) => SkipCounted(data, off)
  }

  function QuicLongPacketEnd(data: bytes): (r: Option<LongPacket>)
    ensures r.Some? ==> 7 <= r.value.end <= |data|
  {
    if |data| < 7 || data[0] < 0x80 then None
    else
      match ConnectionIdsEnd(data)
      case None => None
      case Some(pos) =>
        var version := BE(data[1..5]);
        if version == 0 then Some(LongPacket(NEGOTIATION, |data|))
        else
          var packetType := QuicLongPacketType(data[0], version);
          if packetType == RETRY then Some(LongPacket(RETRY, |data|))
          else
            match PayloadEnd(data, pos, packetType)
            case None => None
            case Some(end) => Some(LongPacket(packetType, end))
  }

  datatype Located = Found(prefix: bytes, packet: bytes, suffix: bytes) | Retry | NotFound

  function LocateFrom(data: bytes, off: nat): (l: Located)
    requires off <= |data|
    decreases |data| - off
  {
    if off == |data| || data[off] < 0x80 then NotFound
    else
      match QuicLongPacketEnd(data[off..])
      case None => NotFound
      case Some(p) =>
        if p.packetType == RETRY then Retry
        else if p.packetType == INITIAL then Found(data[..off], data[off..off + p.end], data[off + p.end..])
        else LocateFrom(data, off + p.end)
  }

  function LocateQUICInitial(data: bytes): (l: Located)
  {
    LocateFrom(data, 0)
  }

  method LocateInitial(data: bytes) returns (l: Located)
    ensures l == LocateQUICInitial(data)
  {
    hide QuicLongPacketEnd;
    var off := 0;
    while off < |data|
      invariant off <= |data|
      invariant LocateQUICInitial(data) == LocateFrom(data, off)
      decreases |data| - off
    {
      if data[off] < 0x80 {
        return NotFound;
      }
      var p := QuicLongPacketEnd(data[off..]);
      if p.None? {
        return NotFound;
      }
      if p.value.packetType == RETRY {
        return Retry;
      }
      var end := off + p.value.end;
      if p.value.packetType == INITIAL {
        return Found(data[..off], data[off..end], data[end..]);
      }
      off := end;
    }
    return NotFound;
  }

  // ---- the two header walks agree -----------------------------------------

  /** One whole long-header packet that is neither Initial nor Retry. */
  ghost predicate SkippedPacket(p: bytes) {
    match QuicLongPacketEnd(p)
    case None => false
    case Some(l) => l.end == |p| && l.packetType != INITIAL && l.packetType != RETRY && l.packetType != NEGOTIATION
  }

  ghost predicate SkippedPackets(ps: seq<bytes>) {
    forall i :: 0 <= i < |ps| ==> SkippedPacket(ps[i])
  }

  lemma PayloadEndLocal(d: bytes, e: bytes, pos: nat, packetType: byte, hi: nat)
    requires PayloadEnd(d, pos, packetType) == Some(hi)
    requires Agree(d, e, 0, pos, hi)
    ensures PayloadEnd(e, pos, packetType) == Some(hi)
  {
    hide SkipCounted, Agree;
    var off := TokenEnd(d, pos, packetType).value;
    if packetType == INITIAL {
      SkipCountedLocal(d, e, 0, pos, hi);
    }
    AgreeAt(d, e, 0, pos, hi);
    AgreeWithin(d, e, 0, pos, hi, off, hi);
    SkipCountedLocal(d, e, 0, off, hi);
  }

  /** A packet is measured by its own bytes: what follows does not matter, except to packets that run to the end. */
  lemma LongPacketLocal(data: bytes, more: bytes)
    requires QuicLongPacketEnd(data).Some?
    requires QuicLongPacketEnd(data).value.packetType !in {RETRY, NEGOTIATION}
    ensures var end := QuicLongPacketEnd(data).value.end;
      QuicLongPacketEnd(data[..end] + more) == QuicLongPacketEnd(data)
  {
    var p := QuicLongPacketEnd(data).value;
    var e := data[..p.end] + more;
    var pos := ConnectionIdsEnd(data).value;
    assert e[1..5] == data[1..5];
    hide PayloadEnd, QuicLongPacketType, BE;
    PayloadEndLocal(data, e, pos, p.packetType, p.end);
    SameIds(data, e, p.end);
  }

  lemma SameIds(d: bytes, e: bytes, hi: nat)
    requires |d| >= 7 && |e| >= 7 && ConnectionIdsEnd(d).Some? && ConnectionIdsEnd(d).value <= hi <= |e|
    requires hi <= |d| && forall i :: 0 <= i < hi ==> d[i] == e[i]
    ensures ConnectionIdsEnd(e) == ConnectionIdsEnd(d)
  {
  }

  /** A packet cut out of its datagram still measures itself. */
  lemma CutOut(data: bytes)
    requires QuicLongPacketEnd(data).Some?
    requires QuicLongPacketEnd(data).value.packetType !in {RETRY, NEGOTIATION}
    ensures QuicLongPacketEnd(data[..QuicLongPacketEnd(data).value.end]) == QuicLongPacketEnd(data)
  {
    hide QuicLongPacketEnd;
    LongPacketLocal(data, []);
    var cut := data[..QuicLongPacketEnd(data).value.end];
    assert cut + [] == cut;
  }

  /** On an Initial packet that fills its bytes the second walk succeeds too, and ends at the same byte. */
  lemma WalksAgree(packet: bytes)
    requires QuicLongPacketEnd(packet) == Some(LongPacket(INITIAL, |packet|))
    ensures ParseInitialPacket(packet).Some?
    ensures ParseInitialPacket(packet).value.packetLen == |packet|
    ensures |ParseInitialPacket(packet).value.header.dcid| <= 20 && |ParseInitialPacket(packet).value.header.scid| <= 20
  {
    hide VarintAt, BE, QuicLongPacketType;
    var pos := ConnectionIdsEnd(packet).value;
    var dcidLen: nat := packet[5];
    assert ConnectionIdAt(packet, 5) == Some(BytesAt(packet[6..6 + dcidLen], 6 + dcidLen));
    assert ConnectionIdAt(packet, 6 + dcidLen) == Some(BytesAt(packet[7 + dcidLen..pos], pos));
    var length := VarintAt(packet, pos).value;
    assert TokenAt(packet, pos) == Some(BytesAt(packet[length.next..length.next + length.value], length.next + length.value));
  }

  /**
   * And a packet the second walk accepts is measured alike by the first one, for connection IDs of at most 20 bytes; only
   * version 0 the first takes for a version negotiation.
   */
  lemma WalksAgreeBack(packet: bytes)
    requires ParseInitialPacket(packet).Some?
    requires ParseInitialPacket(packet).value.packetLen == |packet|
    requires |ParseInitialPacket(packet).value.header.dcid| <= 20 && |ParseInitialPacket(packet).value.header.scid| <= 20
    ensures QuicLongPacketEnd(packet)
         == Some(LongPacket(if ParseInitialPacket(packet).value.header.version == 0 then NEGOTIATION else INITIAL, |packet|))
  {
    hide VarintAt, BE, QuicLongPacketType;
    var dcid := ConnectionIdAt(packet, 5).value;
    var scid := ConnectionIdAt(packet, dcid.next).value;
    assert ConnectionIdsEnd(packet) == Some(scid.next);
    var length := VarintAt(packet, scid.next).value;
    assert TokenEnd(packet, scid.next, INITIAL) == Some(length.next + length.value);
  }

  lemma {:induction false} LocateDecomposes(data: bytes, off: nat, ps: seq<bytes>) returns (all: seq<bytes>)
    requires off <= |data| && SkippedPackets(ps) && data[..off] == Concat(ps)
    requires LocateFrom(data, off).Found?
    ensures var l := LocateFrom(data, off);
      && l.prefix + l.packet + l.suffix == data
      && l.prefix == Concat(all) && SkippedPackets(all)
      && QuicLongPacketEnd(l.packet) == Some(LongPacket(INITIAL, |l.packet|))
    decreases |data| - off
  {
    hide QuicLongPacketEnd, Concat;
    var rest := data[off..];
    var p := QuicLongPacketEnd(rest).value;
    var next := off + p.end;
    assert rest[..p.end] == data[off..next];
    if p.packetType == INITIAL {
      CutOut(rest);
      all := ps;
    } else {
      NegotiationRunsToEnd(rest);
      assert LocateFrom(data, |data|) == NotFound;
      assert p.packetType != NEGOTIATION;
      CutOut(rest);
      ConcatAppend(ps, [data[off..next]]);
      ConcatOne(data[off..next]);
      assert data[..next] == data[..off] + data[off..next];
      all := LocateDecomposes(data, next, ps + [data[off..next]]);
    }
  }

  lemma ConcatOne(p: bytes)
    ensures Concat([p]) == p
  {
    assert [p][1..] == [];
    assert p + [] == p;
  }

  lemma NegotiationRunsToEnd(data: bytes)
    requires QuicLongPacketEnd(data).Some?
    ensures QuicLongPacketEnd(data).value.packetType == NEGOTIATION ==> QuicLongPacketEnd(data).value.end == |data|
  {
  }

  /**
   * A located Initial packet: prefix, packet and suffix are the datagram; the prefix is whole long-header packets, none
   * of them Initial or Retry; and parseInitialPacket accepts exactly the bytes of the packet.
   */
  lemma LocateExact(data: bytes) returns (ps: seq<bytes>)
    requires LocateQUICInitial(data).Found?
    ensures var l := LocateQUICInitial(data);
      && l.prefix + l.packet + l.suffix == data
      && l.prefix == Concat(ps) && SkippedPackets(ps)
      && QuicLongPacketEnd(l.packet) == Some(LongPacket(INITIAL, |l.packet|))
      && ParseInitialPacket(l.packet).Some? && ParseInitialPacket(l.packet).value.packetLen == |l.packet|
  {
    ps := LocateDecomposes(data, 0, []);
    WalksAgree(LocateQUICInitial(data).packet);
  }

  lemma {:induction false} LocatedFrom(done: bytes, ps: seq<bytes>, packet: bytes, suffix: bytes)
    requires SkippedPackets(ps)
    requires QuicLongPacketEnd(packet) == Some(LongPacket(INITIAL, |packet|))
    ensures LocateFrom(done + Concat(ps) + packet + suffix, |done|) == Found(done + Concat(ps), packet, suffix)
    decreases |ps|
  {
    hide QuicLongPacketEnd, LocateFrom;
    var data := done + Concat(ps) + packet + suffix;
    if ps == [] {
      assert data == done + packet + suffix;
      assert done + Concat(ps) == done;
      FindsOne(done, packet, suffix);
    } else {
      var p, rest := ps[0], Concat(ps[1..]);
      LocatedFrom(done + p, ps[1..], packet, suffix);
      assert data == done + p + rest + packet + suffix;
      assert done + Concat(ps) == done + p + rest;
      assert SkippedPacket(p);
      SkipsOne(done, p, rest + packet + suffix);
      assert data == done + p + (rest + packet + suffix);
    }
  }

  lemma FindsOne(done: bytes, packet: bytes, suffix: bytes)
    requires QuicLongPacketEnd(packet) == Some(LongPacket(INITIAL, |packet|))
    ensures LocateFrom(done + packet + suffix, |done|) == Found(done, packet, suffix)
  {
    hide QuicLongPacketEnd;
    var data := done + packet + suffix;
    LongPacketLocal(packet, suffix);
    assert packet[..|packet|] + suffix == data[|done|..];
    FirstByteHigh(packet);
    var end := |done| + |packet|;
    assert data[..|done|] == done && data[|done|..end] == packet && data[end..] == suffix;
  }

  lemma SkipsOne(done: bytes, p: bytes, rest: bytes)
    requires SkippedPacket(p)
    ensures LocateFrom(done + p + rest, |done|) == LocateFrom(done + p + rest, |done + p|)
  {
    hide QuicLongPacketEnd;
    LongPacketLocal(p, rest);
    assert p[..|p|] + rest == (done + p + rest)[|done|..];
    FirstByteHigh(p);
  }

  /** Conversely, an Initial packet behind skipped packets is located, with everything around it. */
  lemma LocatedBehind(ps: seq<bytes>, packet: bytes, suffix: bytes)
    requires SkippedPackets(ps)
    requires QuicLongPacketEnd(packet) == Some(LongPacket(INITIAL, |packet|))
    ensures LocateQUICInitial(Concat(ps) + packet + suffix) == Found(Concat(ps), packet, suffix)
  {
    LocatedFrom([], ps, packet, suffix);
    assert [] + Concat(ps) == Concat(ps);
  }

  lemma FirstByteHigh(p: bytes)
    requires QuicLongPacketEnd(p).Some?
    ensures |p| > 0 && p[0] >= 0x80
  {
  }
}
