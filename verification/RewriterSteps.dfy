/** Single steps of the rewriter on real Initial packets: when they succeed, and what the receiver makes of the result. */
module RewriterSteps {
  import opened Bytes
  import opened Varint
  import opened PacketNumber
  import opened Framing
  import opened AckSize
  import opened Splitting
  import opened Packet
  import opened PacketRoundTrip
  import opened Padding
  import opened Datagram
  import opened Rewriter

  // ---- Initial packets as their sender builds them ------------------------

  /** An Initial packet behind other long-header packets and before anything else. */
  datatype InitialDatagram = InitialDatagram(
    skipped: seq<bytes>, header: Header, pn: nat, pnLen: nat, plaintext: bytes, suffix: bytes)

  /** A packet within the limits of the formats; connection IDs have at most 20 bytes (section 17.2 of RFC 9000). */
  ghost predicate Sendable(i: InitialDatagram) {
    && SkippedPackets(i.skipped)
    && ValidHeader(i.header) && |i.header.dcid| <= 20 && |i.header.scid| <= 20
    && SupportedVersion(i.header.version)
    && 1 <= i.pnLen <= 4 && 4 <= i.pnLen + |i.plaintext| && i.pnLen + |i.plaintext| + 16 < MAX_VARINT
    && i.pn < MAX_PN
  }

  ghost function PacketBytes(c: Crypto, i: InitialDatagram, keys: Keys): (b: bytes)
    requires Lawful(c) && Sendable(i)
  {
    EncryptedSize(c, i.header, i.pn, i.pnLen, i.plaintext, keys);
    EncryptInitial(c, i.header, i.pn, i.pnLen, i.plaintext, keys).value
  }

  ghost function WireBytes(c: Crypto, i: InitialDatagram, keys: Keys): (b: bytes)
    requires Lawful(c) && Sendable(i)
  {
    Concat(i.skipped) + PacketBytes(c, i, keys) + i.suffix
  }

  /** A receiver expecting `expected` finds this packet in the datagram and reads this content. */
  ghost predicate Reads(c: Crypto, data: bytes, keys: Keys, expected: nat, i: InitialDatagram) {
    && LocateQUICInitial(data) == Found(Concat(i.skipped), PacketIn(data), i.suffix)
    && ParseInitialPacket(PacketIn(data)).Some?
    && ParseInitialPacket(PacketIn(data)).value.header == i.header
    && ParseInitialPacket(PacketIn(data)).value.packetLen == |PacketIn(data)|
    && DecryptInitial(c, PacketIn(data), keys, expected) == Some(Decrypted(i.plaintext, i.pn, i.pnLen))
  }

  /** The Initial packet of a datagram, if it has one. */
  ghost function PacketIn(data: bytes): (p: bytes) {
    var l := LocateQUICInitial(data);
    if l.Found? then l.packet else []
  }

  /** Anyone whose expectation decodes the number takes the packet out of its datagram and reads it. */
  lemma Received(c: Crypto, i: InitialDatagram, keys: Keys, expected: nat)
    requires Lawful(c) && Sendable(i) && Decodes(i.pn, i.pnLen, expected)
    ensures Reads(c, WireBytes(c, i, keys), keys, expected, i)
    ensures PacketIn(WireBytes(c, i, keys)) == PacketBytes(c, i, keys)
  {
    hide EncryptInitial, LocateQUICInitial, QuicLongPacketEnd, ParseInitialPacket, DecryptInitial, HeaderSize, VarintLen, Decodes,
      Concat;
    var packet := PacketBytes(c, i, keys);
    EncryptedSize(c, i.header, i.pn, i.pnLen, i.plaintext, keys);
    assert packet + [] == packet;
    EncryptedShape(c, i.header, i.pn, i.pnLen, i.plaintext, keys, []);
    DecryptEncrypted(c, i.header, i.pn, i.pnLen, i.plaintext, keys, expected, []);
    WalksAgreeBack(packet);
    LocatedBehind(i.skipped, packet, i.suffix);
  }

  /** What one receiver reads, every other whose expectation decodes the number reads too. */
  lemma ReadsElsewhere(c: Crypto, data: bytes, keys: Keys, expected: nat, i: InitialDatagram, expected': nat)
    requires Reads(c, data, keys, expected, i) && Decodes(i.pn, i.pnLen, expected')
    ensures Reads(c, data, keys, expected', i)
  {
    hide LocateQUICInitial, ParseInitialPacket, ApplyMask, DecodePacketNumber, BE, ToBE, QuicNonce, RemoveHeaderProtection;
    var packet := PacketIn(data);
    var pkt := ParseInitialPacket(packet).value;
    var u := RemoveHeaderProtection(c, packet[..pkt.packetLen], pkt.pnOffset, keys.hp).value;
    var digits := u.packet[pkt.pnOffset..pkt.pnOffset + u.pnLen];
    DigitsOf(digits, expected);
  }

  /** The digits behind a decoded number are the digits it would be sent with. */
  lemma DigitsOf(digits: bytes, expected: nat)
    requires 1 <= |digits| <= 4
    ensures BE(ToBE(DecodePacketNumber(BE(digits), |digits|, expected), |digits|)) == BE(digits)
  {
    BEBound(digits);
    var pn := DecodePacketNumber(BE(digits), |digits|, expected);
    DecodeEndsIn(BE(digits), |digits|, expected);
    BERoundTrip(pn, |digits|);
  }

  /** What can be read can be sent: any datagram whose Initial packet decrypts has content within the limits of the formats. */
  lemma ReadableIsSendable(c: Crypto, data: bytes, keys: Keys, expected: nat) returns (i: InitialDatagram)
    requires Lawful(c) && expected < MAX_PN
    requires LocateQUICInitial(data).Found?
    requires DecryptInitial(c, PacketIn(data), keys, expected).Some?
    requires SupportedVersion(ParseInitialPacket(PacketIn(data)).value.header.version)
    ensures Reads(c, data, keys, expected, i) && Sendable(i) && Decodes(i.pn, i.pnLen, expected)
  {
    hide LocateQUICInitial, QuicLongPacketEnd, ParseInitialPacket, DecryptInitial, SupportedVersion, Decodes, SkippedPackets, Concat;
    var packet := PacketIn(data);
    var d := DecryptInitial(c, packet, keys, expected).value;
    var skipped := LocateExact(data);
    WalksAgree(packet);
    var pkt := ParseInitialPacket(packet).value;
    i := InitialDatagram(skipped, pkt.header, d.pn, d.pnLen, d.plaintext, LocateQUICInitial(data).suffix);
    DecryptedFits(c, packet, keys, expected);
  }

  /** A packet on the wire is at least as long as the same content with the shortest Length and token-length fields. */
  lemma ReadSize(c: Crypto, data: bytes, keys: Keys, expected: nat, i: InitialDatagram)
    requires Lawful(c) && Reads(c, data, keys, expected, i)
    ensures |PacketIn(data)| >= PacketSize(i.header, i.pnLen, |i.plaintext|)
  {
    var packet := PacketIn(data);
    DecryptedFits(c, packet, keys, expected);
    HeaderAtLeast(packet);
    hide LocateQUICInitial, ParseInitialPacket, DecryptInitial, Decodes, HeaderSize, VarintLen;
  }

  lemma HeaderAtLeast(packet: bytes)
    requires ParseInitialPacket(packet).Some?
    ensures var p := ParseInitialPacket(packet).value;
      HeaderSize(p.header) + VarintLen(p.payloadLen) <= p.pnOffset
  {
    hide VarintAt, VarintLen, BE, QuicLongPacketType;
    var dcid := ConnectionIdAt(packet, 5).value;
    var scid := ConnectionIdAt(packet, dcid.next).value;
    VarintAtSize(packet, scid.next);
    var token := TokenAt(packet, scid.next).value;
    VarintAtSize(packet, token.next);
  }

  // ---- the fallbacks that cannot fire -------------------------------------

  /**
   * A packet that decrypted is long enough to be encrypted again, under any number length at least as large; and its
   * number is one, and is read again off its own re-encoding.
   */
  lemma DecryptedFits(c: Crypto, packet: bytes, keys: Keys, expected: nat)
    requires Lawful(c) && DecryptInitial(c, packet, keys, expected).Some?
    ensures var d := DecryptInitial(c, packet, keys, expected).value;
      && 4 <= d.pnLen + |d.plaintext|
      && d.pnLen + |d.plaintext| + 16 == ParseInitialPacket(packet).value.payloadLen < MAX_VARINT
      && Decodes(d.pn, d.pnLen, expected)
      && (expected < MAX_PN ==> d.pn < MAX_PN)
  {
    hide ParseInitialPacket, ApplyMask, DecodePacketNumber, BE, QuicNonce;
    var pkt := ParseInitialPacket(packet).value;
    var u := RemoveHeaderProtection(c, packet[..pkt.packetLen], pkt.pnOffset, keys.hp).value;
    assert |u.packet| == pkt.packetLen >= pkt.pnOffset + 20;
    var digits := u.packet[pkt.pnOffset..pkt.pnOffset + u.pnLen];
    ReadAgain(digits, expected);
    BEBound(digits);
    if expected < MAX_PN {
      DecodeFits(BE(digits), u.pnLen, expected);
    }
  }

  /** So re-encryption with padding never fails for it, and the new packet fills the datagram to the minimum size. */
  lemma ReencryptionSucceeds(c: Crypto, packet: bytes, keys: Keys, expected: nat, h: Header, pn: nat, pnLen: nat, otherBytes: nat)
    requires Lawful(c) && DecryptInitial(c, packet, keys, expected).Some?
    requires DecryptInitial(c, packet, keys, expected).value.pnLen <= pnLen <= 4
    ensures var r := EncryptPaddedInitial(c, h, pn, pnLen, DecryptInitial(c, packet, keys, expected).value.plaintext, keys, otherBytes);
      r.Some? && |r.value| + otherBytes >= MIN_DATAGRAM
  {
    hide EncryptPaddedInitial, DecryptInitial, ParseInitialPacket, Decodes;
    DecryptedFits(c, packet, keys, expected);
    PaddedInitialFits(c, h, pn, pnLen, DecryptInitial(c, packet, keys, expected).value.plaintext, keys, otherBytes);
  }

  lemma BuiltFrameLength(offset: nat, data: bytes)
    ensures |BuildCryptoFrame(offset, data)| >= 3 + |data|
  {
  }

  lemma FragmentsAreLong(plaintext: bytes)
    requires SplitInitialCryptoFrames(plaintext).Some?
    ensures |SplitInitialCryptoFrames(plaintext).value.first| >= 3 && |SplitInitialCryptoFrames(plaintext).value.second| >= 3
  {
    hide SplitInitialCryptoFrames, BuildCryptoFrame, SplitAt;
    var fs, stream, k := SplitParts(plaintext);
    BuiltFrameLength(0, stream[..k]);
    BuiltFrameLength(k, stream[k..]);
  }

  /** Fragmenting succeeds exactly when the payload can be split; both datagrams then have at least the minimum size. */
  lemma FragmentExactly(c: Crypto, prefix: bytes, suffix: bytes, h: Header, d: Decrypted, keys: Keys)
    requires Lawful(c) && 1 <= d.pnLen <= 4
    ensures FragmentClientInitial(c, prefix, suffix, h, d, keys).Some? <==> SplitInitialCryptoFrames(d.plaintext).Some?
    ensures FragmentClientInitial(c, prefix, suffix, h, d, keys).Some? ==>
      var out := FragmentClientInitial(c, prefix, suffix, h, d, keys).value;
      |out| == 2 && |out[0]| >= MIN_DATAGRAM && |out[1]| >= MIN_DATAGRAM
  {
    hide EncryptPaddedInitial, SplitInitialCryptoFrames;
    if SplitInitialCryptoFrames(d.plaintext).Some? {
      FragmentsAreLong(d.plaintext);
      var f := SplitInitialCryptoFrames(d.plaintext).value;
      PaddedInitialFits(c, h, d.pn, d.pnLen, f.first, keys, |prefix|);
      PaddedInitialFits(c, h, d.pn + 1, SecondPNLen(d.pn, d.pnLen), f.second, keys, |suffix|);
    }
  }

  // ---- the client's datagrams ---------------------------------------------

  /** d is a datagram with one Initial packet of this content, and zero padding behind its plaintext. */
  ghost predicate IsPadded(c: Crypto, d: bytes, i: InitialDatagram, keys: Keys)
    requires Lawful(c)
  {
    exists padding: nat :: PaddedWith(c, d, i, keys, padding)
  }

  ghost predicate PaddedWith(c: Crypto, d: bytes, i: InitialDatagram, keys: Keys, padding: nat)
    requires Lawful(c)
  {
    var j := i.(plaintext := i.plaintext + Zeros(padding));
    Sendable(j) && d == WireBytes(c, j, keys)
  }

  /** encryptPaddedInitial builds such a packet. */
  lemma PaddedPacket(c: Crypto, i: InitialDatagram, keys: Keys, otherBytes: nat) returns (padding: nat)
    requires Lawful(c) && 1 <= i.pnLen <= 4 && i.pnLen + |i.plaintext| >= 4
    requires EncryptPaddedInitial(c, i.header, i.pn, i.pnLen, i.plaintext, keys, otherBytes).Some?
    ensures padding <= MIN_DATAGRAM
    ensures EncryptPaddedInitial(c, i.header, i.pn, i.pnLen, i.plaintext, keys, otherBytes)
         == EncryptInitial(c, i.header, i.pn, i.pnLen, i.plaintext + Zeros(padding), keys)
  {
    hide EncryptInitial, PacketSize;
    padding := MissingBytes(i.header, i.pnLen, |i.plaintext|, otherBytes);
  }

  lemma PaddedIsWire(c: Crypto, i: InitialDatagram, keys: Keys, padding: nat, packet: bytes)
    requires Lawful(c) && Sendable(i) && padding <= MIN_DATAGRAM
    requires |i.plaintext| + MIN_DATAGRAM + 20 < MAX_VARINT
    requires EncryptInitial(c, i.header, i.pn, i.pnLen, i.plaintext + Zeros(padding), keys) == Some(packet)
    ensures PaddedWith(c, Concat(i.skipped) + packet + i.suffix, i, keys, padding)
  {
    hide EncryptInitial, SkippedPackets, Concat;
  }
}
