/** A protected Initial packet byte by byte (sections 5.3 and 5.4 of RFC 9001): what is masked, with what, and what is sealed. */
module Protection {
  import opened Bytes
  import opened PacketNumber
  import opened Packet

  /** The mask of a packet: made of the sixteen bytes that start four behind the packet number's first. */
  function MaskOf(c: Crypto, packet: bytes, pnOffset: nat, hp: bytes): (m: Mask)
    requires pnOffset + 20 <= |packet|
  {
    c.block(hp, packet[pnOffset + 4..pnOffset + 20])
  }

  /** The header with the packet number, as it was before masking: the low four bits of its first byte and the number differ. */
  function Uncovered(c: Crypto, packet: bytes, pnOffset: nat, pnLen: nat, hp: bytes): (header: bytes)
    requires 1 <= pnOffset && pnLen <= 4 && pnOffset + 20 <= |packet|
    ensures |header| == pnOffset + pnLen
  {
    var m := MaskOf(c, packet, pnOffset, hp);
    [XorByte(packet[0], m[0] % 16)] + packet[1..pnOffset]
    + seq(pnLen, i requires 0 <= i < pnLen => XorByte(packet[pnOffset + i], m[1 + i]))
  }

  lemma UncoveredIs(c: Crypto, packet: bytes, pnOffset: nat, pnLen: nat, hp: bytes)
    requires 1 <= pnOffset && pnLen <= 4 && pnOffset + 20 <= |packet|
    ensures Uncovered(c, packet, pnOffset, pnLen, hp)
         == ApplyMask(packet, pnOffset, pnLen, MaskOf(c, packet, pnOffset, hp))[..pnOffset + pnLen]
  {
    var m := MaskOf(c, packet, pnOffset, hp);
    var number := seq(pnLen, i requires 0 <= i < pnLen => XorByte(packet[pnOffset + i], m[1 + i]));
    var masked := ApplyMask(packet, pnOffset, pnLen, m);
    hide ApplyMask, MaskOf;
    assert masked[0] == XorByte(packet[0], m[0] % 16);
    assert masked[1..pnOffset] == packet[1..pnOffset];
    assert masked[pnOffset..pnOffset + pnLen] == number;
    assert masked[..pnOffset + pnLen] == [masked[0]] + masked[1..pnOffset] + masked[pnOffset..pnOffset + pnLen];
  }

  /**
   * A packet that is sent: uncovered, its header is the printed one with the number behind it, and what follows is the
   * payload, sealed for this number with that header.
   */
  lemma SealedForm(c: Crypto, h: Header, pn: nat, pnLen: nat, plaintext: bytes, keys: Keys)
    requires 1 <= pnLen <= 4 && EncryptInitial(c, h, pn, pnLen, plaintext, keys).Some?
    ensures var r := EncryptInitial(c, h, pn, pnLen, plaintext, keys).value;
      var front := PrintHeader(h, pnLen, pnLen + |plaintext| + 16);
      var n := |front|;
      && n + 20 <= |r| && XorByte(r[0], MaskOf(c, r, n, keys.hp)[0] % 16) % 4 == pnLen - 1
      && Uncovered(c, r, n, pnLen, keys.hp) == front + ToBE(pn, pnLen)
      && r[n + pnLen..] == c.seal(keys.key, QuicNonce(keys.iv, pn), plaintext, front + ToBE(pn, pnLen))
  {
    hide PrintHeader, SealedPacket, FirstByteOf, QuicNonce, ToBE, Uncovered, MaskOf, ApplyMask;
    var front := PrintHeader(h, pnLen, pnLen + |plaintext| + 16);
    SealedParts(c, h, pn, pnLen, plaintext, keys);
    Covered(c, SealedPacket(c, h, pn, pnLen, plaintext, keys), |front|, pnLen, keys.hp);
  }

  lemma SealedParts(c: Crypto, h: Header, pn: nat, pnLen: nat, plaintext: bytes, keys: Keys)
    requires 1 <= pnLen <= 4
    ensures var front := PrintHeader(h, pnLen, pnLen + |plaintext| + 16);
      var sealed := SealedPacket(c, h, pn, pnLen, plaintext, keys);
      var n := |front|;
      && n >= 1 && n + pnLen <= |sealed| && sealed[0] % 4 == pnLen - 1 && sealed[..n + pnLen] == front + ToBE(pn, pnLen)
      && sealed[n + pnLen..] == c.seal(keys.key, QuicNonce(keys.iv, pn), plaintext, front + ToBE(pn, pnLen))
  {
    assert FirstByteOf(h.version, pnLen) % 4 == pnLen - 1;
    hide PrintHeader, FirstByteOf, QuicNonce, ToBE;
    var front := PrintHeader(h, pnLen, pnLen + |plaintext| + 16);
    assert |ToBE(pn, pnLen)| == pnLen;
  }

  /** Applying protection and uncovering the header again. */
  lemma Covered(c: Crypto, sealed: bytes, n: nat, pnLen: nat, hp: bytes)
    requires 1 <= n && 1 <= pnLen <= 4 && n + 20 <= |sealed| && sealed[0] % 4 == pnLen - 1
    ensures ApplyHeaderProtection(c, sealed, n, pnLen, hp).Some?
    ensures var r := ApplyHeaderProtection(c, sealed, n, pnLen, hp).value;
      && |r| == |sealed| && XorByte(r[0], MaskOf(c, r, n, hp)[0] % 16) % 4 == pnLen - 1
      && Uncovered(c, r, n, pnLen, hp) == sealed[..n + pnLen] && r[n + pnLen..] == sealed[n + pnLen..]
  {
    ProtectionRoundTrip(c, sealed, n, pnLen, hp);
    var r := ApplyHeaderProtection(c, sealed, n, pnLen, hp).value;
    UncoveredIs(c, r, n, pnLen, hp);
    hide Uncovered;
  }

  /** What a packet must be to be read as d: uncovered, its number decodes to d's, and its payload opens with that header. */
  ghost predicate ReadsAs(c: Crypto, data: bytes, keys: Keys, expected: nat, d: Decrypted) {
    && ParseInitialPacket(data).Some?
    && var InitialParse(h, n, payloadLen, end) := ParseInitialPacket(data).value;
    && n + 20 <= end
    && var packet := data[..end];
    && d.pnLen == XorByte(packet[0], MaskOf(c, packet, n, keys.hp)[0] % 16) % 4 + 1
    && var header := Uncovered(c, packet, n, d.pnLen, keys.hp);
    && d.pn == DecodePacketNumber(BE(header[n..]), d.pnLen, expected)
    && c.open(keys.key, QuicNonce(keys.iv, d.pn), packet[n + d.pnLen..], header) == Some(d.plaintext)
  }

  lemma OpenedForm(c: Crypto, data: bytes, keys: Keys, expected: nat, d: Decrypted)
    ensures DecryptInitial(c, data, keys, expected) == Some(d) <==> ReadsAs(c, data, keys, expected, d)
  {
    hide ParseInitialPacket, DecodePacketNumber, QuicNonce, BE, Uncovered, ApplyMask;
    if ParseInitialPacket(data).Some? {
      var InitialParse(h, n, payloadLen, end) := ParseInitialPacket(data).value;
      var packet := data[..end];
      if n + 20 <= end {
        var pnLen := XorByte(packet[0], MaskOf(c, packet, n, keys.hp)[0] % 16) % 4 + 1;
        UncoveredIs(c, packet, n, pnLen, keys.hp);
        var u := ApplyMask(packet, n, pnLen, MaskOf(c, packet, n, keys.hp));
        assert u[..n + pnLen][n..] == u[n..n + pnLen];
        assert u[n + pnLen..] == packet[n + pnLen..];
      }
    }
  }
}
