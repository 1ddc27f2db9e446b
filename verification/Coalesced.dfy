/** All Initial packets of a datagram (section 12.2 of RFC 9000), and what the two ends of a connection read from them. */
module Coalesced {
  import opened Bytes
  import opened PacketNumber
  import opened Packet
  import opened Datagram
  import opened RewriterSteps

  /** What a receiver reads from an Initial packet. */
  datatype Content = Content(header: Header, pn: nat, pnLen: nat, plaintext: bytes)

  /** The first Initial packet and those behind it, in order. The rewriter touches only the first. */
  ghost function InitialsIn(data: bytes): (ps: seq<bytes>)
    decreases |data|
  {
    if !LocateQUICInitial(data).Found? then []
    else
      SuffixIsShorter(data);
      [PacketIn(data)] + InitialsIn(LocateQUICInitial(data).suffix)
  }

  lemma SuffixIsShorter(data: bytes)
    requires LocateQUICInitial(data).Found?
    ensures |LocateQUICInitial(data).suffix| < |data|
  {
    var ps := LocateExact(data);
    FirstByteHigh(LocateQUICInitial(data).packet);
    hide LocateQUICInitial, QuicLongPacketEnd, ParseInitialPacket;
  }

  /**
   * One packet, read by an end of the connection with this original connection ID: the keys are derived from that ID,
   * for the packet's version, whatever ID the packet itself bears (section 5.2 of RFC 9001).
   */
  ghost function ReadPacket(c: Crypto, dcid: bytes, fromServer: bool, packet: bytes, expected: nat): (r: Option<Content>) {
    match ParseInitialPacket(packet)
    case None => None
    case Some(p) =>
      match DecryptInitial(c, packet, c.derive(p.header.version, dcid, fromServer), expected)
      case None => None
      case Some(d) => Some(Content(p.header, d.pn, d.pnLen, d.plaintext))
  }

  ghost predicate Readable(c: Crypto, dcid: bytes, packet: bytes) {
    exists expected: nat :: ReadPacket(c, dcid, false, packet, expected).Some?
  }

  ghost predicate Yields(c: Crypto, dcid: bytes, packet: bytes, r: Content) {
    exists expected: nat :: ReadPacket(c, dcid, false, packet, expected) == Some(r)
  }

  /** What these packets of the client hold for the server: one content for each that it can read at all. */
  ghost predicate Contain(c: Crypto, dcid: bytes, ps: seq<bytes>, more: seq<Content>) {
    if ps == [] then more == []
    else if Readable(c, dcid, ps[0]) then more != [] && Yields(c, dcid, ps[0], more[0]) && Contain(c, dcid, ps[1..], more[1..])
    else Contain(c, dcid, ps[1..], more)
  }

  /** They always hold something definite. */
  lemma {:induction false} SomethingContained(c: Crypto, dcid: bytes, ps: seq<bytes>) returns (more: seq<Content>)
    ensures Contain(c, dcid, ps, more)
  {
    hide ReadPacket;
    if ps == [] {
      more := [];
    } else {
      more := SomethingContained(c, dcid, ps[1..]);
      if Readable(c, dcid, ps[0]) {
        var expected: nat :| ReadPacket(c, dcid, false, ps[0], expected).Some?;
        var r := ReadPacket(c, dcid, false, ps[0], expected).value;
        assert Yields(c, dcid, ps[0], r);
        assert ([r] + more)[1..] == more;
        more := [r] + more;
      }
    }
  }

  ghost function ContentOf(i: InitialDatagram): (r: Content) {
    Content(i.header, i.pn, i.pnLen, i.plaintext)
  }

  /** The first packet and the rest, for a datagram of which one receiver reads the first. */
  lemma FirstAndRest(c: Crypto, dcid: bytes, fromServer: bool, data: bytes, expected: nat, i: InitialDatagram)
    requires Reads(c, data, c.derive(i.header.version, dcid, fromServer), expected, i)
    ensures InitialsIn(data) == [PacketIn(data)] + InitialsIn(i.suffix)
    ensures ReadPacket(c, dcid, fromServer, PacketIn(data), expected) == Some(ContentOf(i))
  {
    hide LocateQUICInitial, ParseInitialPacket, DecryptInitial;
  }

  /** Conversely, what is read from the first packet is the first packet's content, with what stands around it. */
  lemma FirstIsRead(c: Crypto, dcid: bytes, fromServer: bool, data: bytes, expected: nat) returns (i: InitialDatagram)
    requires LocateQUICInitial(data).Found?
    requires ReadPacket(c, dcid, fromServer, PacketIn(data), expected).Some?
    ensures ContentOf(i) == ReadPacket(c, dcid, fromServer, PacketIn(data), expected).value
    ensures Reads(c, data, c.derive(i.header.version, dcid, fromServer), expected, i)
    ensures SkippedPackets(i.skipped)
  {
    hide LocateQUICInitial, ParseInitialPacket, DecryptInitial, QuicLongPacketEnd;
    var skipped := LocateExact(data);
    var r := ReadPacket(c, dcid, fromServer, PacketIn(data), expected).value;
    i := InitialDatagram(skipped, r.header, r.pn, r.pnLen, r.plaintext, LocateQUICInitial(data).suffix);
  }

  /** What one expectation reads from a packet, every other that decodes its number reads too. */
  lemma ReadAlike(c: Crypto, dcid: bytes, fromServer: bool, packet: bytes, expected: nat, expected': nat)
    requires ReadPacket(c, dcid, fromServer, packet, expected).Some?
    requires var r := ReadPacket(c, dcid, fromServer, packet, expected).value; Decodes(r.pn, r.pnLen, expected')
    ensures ReadPacket(c, dcid, fromServer, packet, expected') == ReadPacket(c, dcid, fromServer, packet, expected)
  {
    hide ParseInitialPacket, ApplyMask, DecodePacketNumber, BE, ToBE, QuicNonce, RemoveHeaderProtection;
    var pkt := ParseInitialPacket(packet).value;
    var keys := c.derive(pkt.header.version, dcid, fromServer);
    var u := RemoveHeaderProtection(c, packet[..pkt.packetLen], pkt.pnOffset, keys.hp).value;
    DigitsOf(u.packet[pkt.pnOffset..pkt.pnOffset + u.pnLen], expected);
  }

  lemma NoInitials()
    ensures InitialsIn([]) == []
  {
  }
}
