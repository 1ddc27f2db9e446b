/** Encrypting an Initial packet and decrypting it again, whatever bytes follow in the datagram. */
module PacketRoundTrip {
  import opened Bytes
  import opened Varint
  import opened PacketNumber
  import opened Packet

  lemma CidAtWritten(pre: bytes, cid: bytes, rest: bytes)
    requires |cid| < 256
    ensures ConnectionIdAt(pre + [|cid| % 256] + cid + rest, |pre|) == Some(BytesAt(cid, |pre| + 1 + |cid|))
  {
    var d := pre + [|cid| % 256] + cid + rest;
    assert d[|pre|] == |cid|;
    assert d[|pre| + 1..|pre| + 1 + |cid|] == cid;
  }

  lemma TokenAtWritten(pre: bytes, token: bytes, rest: bytes)
    requires |token| < MAX_VARINT
    ensures TokenAt(pre + WriteVarint(|token|) + token + rest, |pre|)
         == Some(BytesAt(token, |pre| + VarintLen(|token|) + |token|))
  {
    hide VarintAt, WriteVarint, VarintLen;
    var w := WriteVarint(|token|);
    var d := pre + w + token + rest;
    assert d == pre + w + (token + rest);
    VarintAtWritten(pre, |token|, token + rest);
    var at := |pre| + VarintLen(|token|);
    assert d[at..at + |token|] == token;
  }

  /** The fields behind the version, as they are read from `pre ++ fields ++ rest`. */
  lemma FieldsParse(pre: bytes, h: Header, rest: bytes)
    requires ValidHeader(h)
    ensures FieldsAt(pre + PrintFields(h) + rest, |pre|)
         == Some(FieldsRead(h.dcid, h.scid, h.token, |pre| + |PrintFields(h)|))
  {
    hide ConnectionIdAt, TokenAt, WriteVarint, VarintLen;
    var w := WriteVarint(|h.token|);
    var l1, l2 := [|h.dcid| % 256], [|h.scid| % 256];
    var d := pre + PrintFields(h) + rest;
    var t1 := l2 + h.scid + w + h.token + rest;
    assert d == pre + l1 + h.dcid + t1;
    CidAtWritten(pre, h.dcid, t1);
    var p1 := pre + l1 + h.dcid;
    var t2 := w + h.token + rest;
    assert d == p1 + l2 + h.scid + t2;
    CidAtWritten(p1, h.scid, t2);
    var p2 := p1 + l2 + h.scid;
    assert d == p2 + w + h.token + rest;
    TokenAtWritten(p2, h.token, rest);
  }

  /** data begins with the printed header, apart from the low nibble of its first byte. */
  lemma HeaderShape(h: Header, pnLen: nat, payloadLen: nat, data: bytes) returns (pre: bytes, rest: bytes)
    requires 1 <= pnLen <= 4
    requires var header := PrintHeader(h, pnLen, payloadLen);
      |header| <= |data| && data[1..|header|] == header[1..]
    ensures pre == [data[0]] + ToBE(h.version, 4)
    ensures |PrintHeader(h, pnLen, payloadLen)| == 5 + |PrintFields(h)| + VarintLen(payloadLen)
    ensures data == pre + PrintFields(h) + WriteVarint(payloadLen) + rest
    ensures data[1..5] == ToBE(h.version, 4)
  {
    hide PrintFields, WriteVarint, VarintLen, ToBE;
    var header := PrintHeader(h, pnLen, payloadLen);
    pre := [data[0]] + ToBE(h.version, 4);
    rest := data[|header|..];
    assert header[1..] == ToBE(h.version, 4) + PrintFields(h) + WriteVarint(payloadLen);
    assert data == [data[0]] + data[1..|header|] + rest;
  }

  /** A printed header is parsed back, with any low nibble in its first byte and any bytes behind it. */
  lemma HeaderParses(h: Header, pnLen: nat, payloadLen: nat, data: bytes)
    requires ValidHeader(h) && 1 <= pnLen <= 4 && payloadLen < MAX_VARINT
    requires var header := PrintHeader(h, pnLen, payloadLen);
      |header| + payloadLen <= |data| && data[0] / 16 == header[0] / 16 && data[1..|header|] == header[1..]
    ensures var n := |PrintHeader(h, pnLen, payloadLen)|;
      ParseInitialPacket(data) == Some(InitialParse(h, n, payloadLen, n + payloadLen))
  {
    hide FieldsAt, FirstByteOf, SupportedVersion, VarintAt, PrintFields, PrintHeader, WriteVarint, VarintLen, BE, ToBE, QuicLongPacketType;
    FieldsSize(h);
    var pre, rest := HeaderShape(h, pnLen, payloadLen, data);
    HighNibble(data[0], h.version, pnLen);
    var w := WriteVarint(payloadLen);
    var fields := PrintFields(h);
    assert data == pre + fields + (w + rest);
    FieldsParse(pre, h, w + rest);
    VarintAtWritten(pre + fields, payloadLen, rest);
    VersionRead(h.version);
  }

  lemma VersionRead(version: nat)
    requires version < 0x1_0000_0000
    ensures BE(ToBE(version, 4)) == version
  {
    BERoundTrip(version, 4);
    PowerValues();
  }

  lemma FieldsSize(h: Header)
    ensures |PrintFields(h)| >= 2
  {
    hide WriteVarint, VarintLen;
  }

  lemma HighNibble(first: byte, version: nat, pnLen: nat)
    requires 1 <= pnLen <= 4 && first / 16 == FirstByteOf(version, pnLen) / 16
    ensures first >= 0x80 && QuicLongPacketType(first, version) == 0
  {
  }

  /** What encryption leaves on the wire: the plain header apart from the masked bits, then packet number and ciphertext. */
  lemma EncryptedShape(c: Crypto, h: Header, pn: nat, pnLen: nat, plaintext: bytes, keys: Keys, rest: bytes)
    requires Lawful(c) && ValidHeader(h) && 1 <= pnLen <= 4 && pnLen + |plaintext| + 16 < MAX_VARINT
    requires EncryptInitial(c, h, pn, pnLen, plaintext, keys).Some?
    ensures var packet := EncryptInitial(c, h, pn, pnLen, plaintext, keys).value;
      var n := HeaderSize(h) + VarintLen(pnLen + |plaintext| + 16);
      && ParseInitialPacket(packet + rest) == Some(InitialParse(h, n, pnLen + |plaintext| + 16, |packet|))
      && |PrintHeader(h, pnLen, pnLen + |plaintext| + 16)| == n
  {
    hide PrintHeader, VarintLen, ApplyHeaderProtection, ParseInitialPacket, HeaderSize, PacketSize, SealedPacket;
    var payloadLen := pnLen + |plaintext| + 16;
    EncryptedSize(c, h, pn, pnLen, plaintext, keys);
    var header := PrintHeader(h, pnLen, payloadLen);
    var packet := EncryptInitial(c, h, pn, pnLen, plaintext, keys).value;
    var plain := SealedPacket(c, h, pn, pnLen, plaintext, keys);
    SealedStart(c, h, pn, pnLen, plaintext, keys);
    MaskKeepsType(c, plain, |header|, pnLen, keys.hp);
    var data := packet + rest;
    assert data[1..|header|] == header[1..];
    HeaderParses(h, pnLen, payloadLen, data);
  }

  lemma SealedStart(c: Crypto, h: Header, pn: nat, pnLen: nat, plaintext: bytes, keys: Keys)
    requires Lawful(c) && 1 <= pnLen <= 4
    ensures var header := PrintHeader(h, pnLen, pnLen + |plaintext| + 16);
      var plain := SealedPacket(c, h, pn, pnLen, plaintext, keys);
      && |plain| == |header| + pnLen + |plaintext| + 16
      && (forall i :: 0 <= i < |header| ==> plain[i] == header[i])
      && |header| == HeaderSize(h) + VarintLen(pnLen + |plaintext| + 16)
      && |plain| == PacketSize(h, pnLen, |plaintext|)
  {
    HeaderStartSize(h, pnLen);
    hide PrintHeaderStart, VarintLen, WriteVarint, ToBE, HeaderSize;
  }

  /** The packet without its mask opens to what was sealed. */
  lemma SealedOpens(c: Crypto, h: Header, pn: nat, pnLen: nat, plaintext: bytes, keys: Keys, expected: nat)
    requires Lawful(c) && 1 <= pnLen <= 4
    requires Decodes(pn, pnLen, expected)
    ensures var n := |PrintHeader(h, pnLen, pnLen + |plaintext| + 16)|;
      var plain := SealedPacket(c, h, pn, pnLen, plaintext, keys);
      && |plain| == n + pnLen + |plaintext| + 16
      && plain[0] % 4 == pnLen - 1
      && OpenUnmasked(c, plain, n, pnLen, keys, expected) == Some(Decrypted(plaintext, pn, pnLen))
  {
    hide PrintHeaderStart, WriteVarint, VarintLen, ToBE, BE, QuicNonce, DecodePacketNumber;
    var header := PrintHeader(h, pnLen, pnLen + |plaintext| + 16);
    var plain := SealedPacket(c, h, pn, pnLen, plaintext, keys);
    var n := |header|;
    var aad := header + ToBE(pn, pnLen);
    assert plain[..n + pnLen] == aad;
    assert plain[n + pnLen..] == c.seal(keys.key, QuicNonce(keys.iv, pn), plaintext, aad);
    assert plain[n..n + pnLen] == ToBE(pn, pnLen);
  }

  /**
   * The round trip: a packet encrypted with a number the receiver decodes decrypts, with any bytes behind it, to the
   * same plaintext, number and number length.
   */
  lemma DecryptEncrypted(c: Crypto, h: Header, pn: nat, pnLen: nat, plaintext: bytes, keys: Keys, expected: nat, rest: bytes)
    requires Lawful(c) && ValidHeader(h) && 1 <= pnLen <= 4 && pnLen + |plaintext| + 16 < MAX_VARINT
    requires Decodes(pn, pnLen, expected)
    requires EncryptInitial(c, h, pn, pnLen, plaintext, keys).Some?
    ensures DecryptInitial(c, EncryptInitial(c, h, pn, pnLen, plaintext, keys).value + rest, keys, expected)
         == Some(Decrypted(plaintext, pn, pnLen))
  {
    hide PrintHeader, VarintLen, ParseInitialPacket, ApplyHeaderProtection, RemoveHeaderProtection, SealedPacket,
      OpenUnmasked, HeaderSize, Decodes, PacketSize;
    var packet := EncryptInitial(c, h, pn, pnLen, plaintext, keys).value;
    EncryptedShape(c, h, pn, pnLen, plaintext, keys, rest);
    SealedOpens(c, h, pn, pnLen, plaintext, keys, expected);
    var plain := SealedPacket(c, h, pn, pnLen, plaintext, keys);
    var n := |PrintHeader(h, pnLen, pnLen + |plaintext| + 16)|;
    assert |packet| == |plain| >= n + 20;
    ProtectionRoundTrip(c, plain, n, pnLen, keys.hp);
    assert (packet + rest)[..|packet|] == packet;
  }
}
