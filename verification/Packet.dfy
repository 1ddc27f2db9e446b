/** Initial packets (section 17.2.2 of RFC 9000): header, header protection and payload protection (section 5 of RFC 9001). */
module Packet {
  import opened Bytes
  import opened Varint
  import opened PacketNumber

  const VERSION_1: nat := 0x0000_0001
  const VERSION_DRAFT_29: nat := 0xff00_001d
  const VERSION_2: nat := 0x6b33_43cf

  predicate SupportedVersion(version: nat) {
    version == VERSION_1 || version == VERSION_DRAFT_29 || version == VERSION_2
  }

  // ---- cryptography -------------------------------------------------------

  type Mask = s: bytes | |s| == 16 witness Zeros(16)

  datatype Keys = Keys(key: bytes, iv: Iv, hp: bytes)

  /** Key derivation, the AEAD and the header-protection cipher, none of which is modelled further. */
  datatype Crypto = Crypto(
    derive: (nat, bytes, bool) -> Keys,
    seal: (bytes, Iv, bytes, bytes) -> bytes,
    open: (bytes, Iv, bytes, bytes) -> Option<bytes>,
    block: (bytes, bytes) -> Mask
  )

  /** All that is assumed of the AEAD: opening undoes sealing, and the tag is sixteen bytes. */
  ghost predicate Lawful(c: Crypto) {
    && (forall k, n, p, a {:trigger c.seal(k, n, p, a)} ::
          |c.seal(k, n, p, a)| == |p| + 16 && c.open(k, n, c.seal(k, n, p, a), a) == Some(p))
    && (forall k, n, x, a {:trigger c.open(k, n, x, a)} ::
          c.open(k, n, x, a).Some? ==> |x| == |c.open(k, n, x, a).value| + 16)
  }

  /** The assumptions can be met: with a cipher that appends sixteen zero bytes. */
  lemma LawfulCryptoExists() returns (c: Crypto)
    ensures Lawful(c)
  {
    var z := Zeros(16);
    c := Crypto(
      (v, d, s) => Keys([], Zeros(12), []),
      (k, n, p, a) => p + z,
      (k, n, x, a) => if |x| >= 16 then Some(x[..|x| - 16]) else None,
      (k, s) => Zeros(16));
    forall k, n, p, a
      ensures |c.seal(k, n, p, a)| == |p| + 16 && c.open(k, n, c.seal(k, n, p, a), a) == Some(p)
    {
      assert (p + z)[..|p + z| - 16] == p;
    }
  }

  /** Keys exist for the three supported versions only. */
  function InitialSecrets(c: Crypto, version: nat, dcid: bytes, server: bool): (k: Option<Keys>)
  {
    if SupportedVersion(version) then Some(c.derive(version, dcid, server)) else None
  }

  /** Which versions have keys: version 1 and draft 29 of QUIC, and version 2. */
  lemma KnownVersions(c: Crypto, version: nat, dcid: bytes, server: bool)
    ensures InitialSecrets(c, version, dcid, server) ==
      if version in {0x1, 0xff00001d, 0x6b3343cf} then Some(c.derive(version, dcid, server)) else None
  {
  }

  // ---- header -------------------------------------------------------------

  datatype Header = Header(version: nat, dcid: bytes, scid: bytes, token: bytes)

  datatype InitialParse = InitialParse(header: Header, pnOffset: nat, payloadLen: nat, packetLen: nat)

  /** The packet type in version 1 numbering: 0 Initial, 1 0-RTT, 2 Handshake, 3 Retry (section 3.2 of RFC 9369 for version 2). */
  function QuicLongPacketType(first: byte, version: nat): (t: byte)
    ensures t < 4
  {
    var packetType := first / 16 % 4;
    if version == VERSION_2 then
      if packetType == 0 then 3 else if packetType == 1 then 0 else if packetType == 2 then 1 else 2
    else packetType
  }

  /** The bytes from off on, if there are that many. */
  function Take(data: bytes, off: nat, n: nat): (r: Option<bytes>)
    ensures r.Some? ==> off + n <= |data| && |r.value| == n && r.value == data[off..off + n]
  {
    if off + n > |data| then None else Some(data[off..off + n])
  }

  datatype BytesAt = BytesAt(value: bytes, next: nat)

  /** A connection ID: one length byte and that many bytes. */
  function ConnectionIdAt(data: bytes, off: nat): (r: Option<BytesAt>)
    ensures r.Some? ==> off < r.value.next <= |data| && |r.value.value| < 256
  {
    if off >= |data| then None
    else
      match Take(data, off + 1, data[off])
      case None => None
      case Some(cid) => Some(BytesAt(cid, off + 1 + data[off]))
  }

  /** A token: a varint length and that many bytes. */
  function TokenAt(data: bytes, off: nat): (r: Option<BytesAt>)
    ensures r.Some? ==> off < r.value.next <= |data| && |r.value.value| < MAX_VARINT
  {
    match VarintAt(data, off)
    case None => None
    case Some(length) =>
      match Take(data, length.next, length.value)
      case None => None
      case Some(token) => Some(BytesAt(token, length.next + length.value))
  }

  datatype FieldsRead = FieldsRead(dcid: bytes, scid: bytes, token: bytes, next: nat)

  /** The connection IDs and the token. */
  function FieldsAt(data: bytes, off: nat): (r: Option<FieldsRead>)
    ensures r.Some? ==> off < r.value.next <= |data|
    ensures r.Some? ==> |r.value.dcid| < 256 && |r.value.scid| < 256 && |r.value.token| < MAX_VARINT
  {
    match ConnectionIdAt(data, off)
    case None => None
    case Some(dcid) =>
      match ConnectionIdAt(data, dcid.next)
      case None => None
      case Some(scid) =>
        match TokenAt(data, scid.next)
        case None => None
        case Some(token) => Some(FieldsRead(dcid.value, scid.value, token.value, token.next))
  }

  function ParseInitialPacket(data: bytes): (r: Option<InitialParse>)
    ensures r.Some? ==>
      && 1 <= r.value.pnOffset
      && r.value.packetLen == r.value.pnOffset + r.value.payloadLen <= |data|
      && r.value.payloadLen < MAX_VARINT
      && ValidHeader(r.value.header)
  {
    if |data| < 7 || data[0] < 0x80 then None
    else
      var version := BE(data[1..5]);
      if QuicLongPacketType(data[0], version) != 0 then None
      else
        VersionBound(data);
        match FieldsAt(data, 5)
        case None => None
        case Some(f) =>
          match VarintAt(data, f.next)
          case None => None
          case Some(payload) =>
            if payload.next + payload.value > |data| then None
            else Some(InitialParse(Header(version, f.dcid, f.scid, f.token),
                                   payload.next, payload.value, payload.next + payload.value))
  }

  lemma VersionBound(data: bytes)
    requires |data| >= 5
    ensures BE(data[1..5]) < 0x1_0000_0000
  {
    BEBound(data[1..5]);
    PowerValues();
  }

  ghost predicate ValidHeader(h: Header) {
    h.version < 0x1_0000_0000 && |h.dcid| < 256 && |h.scid| < 256 && |h.token| < MAX_VARINT
  }

  function FirstByteOf(version: nat, pnLen: nat): (b: byte)
    requires 1 <= pnLen <= 4
  {
    0xc0 + (if version == VERSION_2 then 0x10 else 0) + pnLen - 1
  }

  /** The connection IDs and the token. */
  function PrintFields(h: Header): (b: bytes)
  {
    [|h.dcid| % 256] + h.dcid + [|h.scid| % 256] + h.scid + WriteVarint(|h.token|) + h.token
  }

  /** Everything before the Length field. */
  function PrintHeaderStart(h: Header, pnLen: nat): (b: bytes)
    requires 1 <= pnLen <= 4
    ensures |b| > 0 && b[0] == FirstByteOf(h.version, pnLen)
  {
    [FirstByteOf(h.version, pnLen)] + ToBE(h.version, 4) + PrintFields(h)
  }

  /** The header up to the packet number, for a payload of payloadLen bytes. */
  function PrintHeader(h: Header, pnLen: nat, payloadLen: nat): (b: bytes)
    requires 1 <= pnLen <= 4
    ensures |b| > 0 && b[0] == FirstByteOf(h.version, pnLen)
  {
    PrintHeaderStart(h, pnLen) + WriteVarint(payloadLen)
  }

  // ---- header protection --------------------------------------------------

  /** The masked packet: four low bits of the first byte and the packet-number bytes. */
  function ApplyMask(packet: bytes, pnOffset: nat, pnLen: nat, mask: Mask): (r: bytes)
    requires 1 <= pnOffset && pnOffset + pnLen <= |packet| && pnLen <= 4
    ensures |r| == |packet|
    ensures r[0] == XorByte(packet[0], mask[0] % 16)
    ensures forall i :: 0 < i < |packet| && !(pnOffset <= i < pnOffset + pnLen) ==> r[i] == packet[i]
    ensures forall i :: pnOffset <= i < pnOffset + pnLen ==> r[i] == XorByte(packet[i], mask[1 + i - pnOffset])
  {
    seq(|packet|, i requires 0 <= i < |packet| =>
      if i == 0 then XorByte(packet[0], mask[0] % 16)
      else if pnOffset <= i < pnOffset + pnLen then XorByte(packet[i], mask[1 + i - pnOffset])
      else packet[i])
  }

  function ApplyHeaderProtection(c: Crypto, packet: bytes, pnOffset: nat, pnLen: nat, hp: bytes): (r: Option<bytes>)
    requires 1 <= pnOffset && pnLen <= 4
    ensures r.Some? <==> pnOffset + 20 <= |packet|
    ensures r.Some? ==> |r.value| == |packet|
  {
    if pnOffset + 20 > |packet| then None
    else Some(ApplyMask(packet, pnOffset, pnLen, c.block(hp, packet[pnOffset + 4..pnOffset + 20])))
  }

  datatype Unmasked = Unmasked(packet: bytes, pnLen: nat)

  function RemoveHeaderProtection(c: Crypto, packet: bytes, pnOffset: nat, hp: bytes): (r: Option<Unmasked>)
    requires 1 <= pnOffset
    ensures r.Some? <==> pnOffset + 20 <= |packet|
    ensures r.Some? ==> |r.value.packet| == |packet| && 1 <= r.value.pnLen <= 4
  {
    if pnOffset + 20 > |packet| then None
    else
      var mask := c.block(hp, packet[pnOffset + 4..pnOffset + 20]);
      var pnLen := XorByte(packet[0], mask[0] % 16) % 4 + 1;
      Some(Unmasked(ApplyMask(packet, pnOffset, pnLen, mask), pnLen))
  }

  /** Removing header protection undoes applying it: the sample is read beyond every masked byte. */
  lemma ProtectionRoundTrip(c: Crypto, packet: bytes, pnOffset: nat, pnLen: nat, hp: bytes)
    requires 1 <= pnOffset && 1 <= pnLen <= 4 && pnOffset + 20 <= |packet|
    requires packet[0] % 4 == pnLen - 1
    ensures ApplyHeaderProtection(c, packet, pnOffset, pnLen, hp).Some?
    ensures RemoveHeaderProtection(c, ApplyHeaderProtection(c, packet, pnOffset, pnLen, hp).value, pnOffset, hp)
         == Some(Unmasked(packet, pnLen))
  {
    var mask := c.block(hp, packet[pnOffset + 4..pnOffset + 20]);
    var masked := ApplyMask(packet, pnOffset, pnLen, mask);
    assert masked[pnOffset + 4..pnOffset + 20] == packet[pnOffset + 4..pnOffset + 20];
    XorCancel(packet[0], mask[0] % 16);
    var back := ApplyMask(masked, pnOffset, pnLen, mask);
    forall i | 0 <= i < |packet|
      ensures back[i] == packet[i]
    {
      if pnOffset <= i < pnOffset + pnLen {
        XorCancel(packet[i], mask[1 + i - pnOffset]);
      }
    }
    assert back == packet;
  }

  /** Masking keeps the header form, the fixed bit and the packet type readable. */
  lemma MaskKeepsType(c: Crypto, packet: bytes, pnOffset: nat, pnLen: nat, hp: bytes)
    requires 1 <= pnOffset && pnLen <= 4 && pnOffset + 20 <= |packet|
    ensures var r := ApplyHeaderProtection(c, packet, pnOffset, pnLen, hp).value;
      r[0] / 16 == packet[0] / 16 && (forall i :: 0 < i < pnOffset ==> r[i] == packet[i])
  {
    var mask := c.block(hp, packet[pnOffset + 4..pnOffset + 20]);
    XorKeepsHighNibble(packet[0], mask[0] % 16);
  }

  method MaskInPlace(packet: array<byte>, pnOffset: nat, pnLen: nat, mask: Mask)
    requires 1 <= pnOffset && pnOffset + pnLen <= packet.Length && pnLen <= 4
    modifies packet
    ensures packet[..] == ApplyMask(old(packet[..]), pnOffset, pnLen, mask)
  {
    packet[0] := XorByte(packet[0], mask[0] % 16);
    for i := 0 to pnLen
      invariant packet[0] == XorByte(old(packet[0]), mask[0] % 16)
      invariant forall j :: 0 < j < packet.Length && !(pnOffset <= j < pnOffset + i) ==> packet[j] == old(packet[j])
      invariant forall j :: pnOffset <= j < pnOffset + i ==> packet[j] == XorByte(old(packet[j]), mask[1 + j - pnOffset])
    {
      packet[pnOffset + i] := XorByte(packet[pnOffset + i], mask[1 + i]);
    }
  }

  method ApplyInPlace(c: Crypto, packet: array<byte>, pnOffset: nat, pnLen: nat, hp: bytes) returns (ok: bool)
    requires 1 <= pnOffset && pnLen <= 4
    modifies packet
    ensures ok <==> ApplyHeaderProtection(c, old(packet[..]), pnOffset, pnLen, hp).Some?
    ensures ok ==> packet[..] == ApplyHeaderProtection(c, old(packet[..]), pnOffset, pnLen, hp).value
    ensures !ok ==> packet[..] == old(packet[..])
  {
    if pnOffset + 20 > packet.Length {
      return false;
    }
    var mask := c.block(hp, packet[pnOffset + 4..pnOffset + 20]);
    assert packet[..][pnOffset + 4..pnOffset + 20] == packet[pnOffset + 4..pnOffset + 20];
    MaskInPlace(packet, pnOffset, pnLen, mask);
    return true;
  }

  method RemoveInPlace(c: Crypto, packet: array<byte>, pnOffset: nat, hp: bytes) returns (pnLen: Option<nat>)
    requires 1 <= pnOffset
    modifies packet
    ensures match RemoveHeaderProtection(c, old(packet[..]), pnOffset, hp)
            case None => pnLen == None && packet[..] == old(packet[..])
            case Some(u) => pnLen == Some(u.pnLen) && packet[..] == u.packet
  {
    if pnOffset + 20 > packet.Length {
      return None;
    }
    var mask := c.block(hp, packet[pnOffset + 4..pnOffset + 20]);
    assert packet[..][pnOffset + 4..pnOffset + 20] == packet[pnOffset + 4..pnOffset + 20];
    var n := XorByte(packet[0], mask[0] % 16) % 4 + 1;
    MaskInPlace(packet, pnOffset, n, mask);
    return Some(n);
  }

  // ---- packets ------------------------------------------------------------

  datatype Decrypted = Decrypted(plaintext: bytes, pn: nat, pnLen: nat)

  /** The packet with its header protection removed: packet number, then payload. */
  function OpenUnmasked(c: Crypto, packet: bytes, pnOffset: nat, pnLen: nat, keys: Keys, expected: nat): (r: Option<Decrypted>)
    requires pnOffset + pnLen <= |packet|
    ensures r.Some? ==> r.value.pnLen == pnLen
  {
    var headerEnd := pnOffset + pnLen;
    var pn := DecodePacketNumber(BE(packet[pnOffset..headerEnd]), pnLen, expected);
    match c.open(keys.key, QuicNonce(keys.iv, pn), packet[headerEnd..], packet[..headerEnd])
    case None => None
    case Some(plaintext) => Some(Decrypted(plaintext, pn, pnLen))
  }

  /** decryptInitialWithExpected. */
  function DecryptInitial(c: Crypto, data: bytes, keys: Keys, expected: nat): (r: Option<Decrypted>)
    ensures r.Some? ==> 1 <= r.value.pnLen <= 4
  {
    match ParseInitialPacket(data)
    case None => None
    case Some(pkt) =>
      match RemoveHeaderProtection(c, data[..pkt.packetLen], pkt.pnOffset, keys.hp)
      case None => None
      case Some(u) => OpenUnmasked(c, u.packet, pkt.pnOffset, u.pnLen, keys, expected)
  }

  /** The packet before header protection. */
  function SealedPacket(c: Crypto, h: Header, pn: nat, pnLen: nat, plaintext: bytes, keys: Keys): (b: bytes)
    requires 1 <= pnLen <= 4
  {
    var header := PrintHeader(h, pnLen, pnLen + |plaintext| + 16) + ToBE(pn, pnLen);
    header + c.seal(keys.key, QuicNonce(keys.iv, pn), plaintext, header)
  }

  /** encryptInitialWithPNLen, for a packet-number length of one to four bytes. */
  function EncryptInitial(c: Crypto, h: Header, pn: nat, pnLen: nat, plaintext: bytes, keys: Keys): (r: Option<bytes>)
    requires 1 <= pnLen <= 4
  {
    ApplyHeaderProtection(c, SealedPacket(c, h, pn, pnLen, plaintext, keys),
                          |PrintHeader(h, pnLen, pnLen + |plaintext| + 16)|, pnLen, keys.hp)
  }

  /** Any other length is replaced by the shortest one for the number. */
  function EncryptInitialWithPNLen(c: Crypto, h: Header, pn: nat, pnLen: int, plaintext: bytes, keys: Keys): (r: Option<bytes>)
  {
    EncryptInitial(c, h, pn, if pnLen < 1 || pnLen > 4 then PacketNumberLen(pn) else pnLen, plaintext, keys)
  }

  function HeaderSize(h: Header): (n: nat)
  {
    7 + |h.dcid| + |h.scid| + VarintLen(|h.token|) + |h.token|
  }

  /** The length of an encrypted packet with plainLen bytes of plaintext. */
  function PacketSize(h: Header, pnLen: nat, plainLen: nat): (n: nat)
  {
    HeaderSize(h) + VarintLen(pnLen + plainLen + 16) + pnLen + plainLen + 16
  }

  /** Encryption fails exactly when the packet is too short for the sample, and its size is known beforehand. */
  lemma EncryptedSize(c: Crypto, h: Header, pn: nat, pnLen: nat, plaintext: bytes, keys: Keys)
    requires Lawful(c) && 1 <= pnLen <= 4
    ensures EncryptInitial(c, h, pn, pnLen, plaintext, keys).Some? <==> pnLen + |plaintext| >= 4
    ensures EncryptInitial(c, h, pn, pnLen, plaintext, keys).Some? ==>
      |EncryptInitial(c, h, pn, pnLen, plaintext, keys).value| == PacketSize(h, pnLen, |plaintext|)
  {
    HeaderStartSize(h, pnLen);
    hide PrintHeaderStart, VarintLen, WriteVarint;
  }

  lemma HeaderStartSize(h: Header, pnLen: nat)
    requires 1 <= pnLen <= 4
    ensures |PrintHeaderStart(h, pnLen)| == HeaderSize(h)
  {
    hide WriteVarint, VarintLen;
  }

  // ---- the same in place --------------------------------------------------

  /** A fresh buffer holding s. */
  method Buffered(s: bytes) returns (a: array<byte>)
    ensures fresh(a) && a[..] == s
  {
    a := new byte[|s|](i requires 0 <= i < |s| => s[i]);
  }

  method EncryptPacket(c: Crypto, h: Header, pn: nat, length: int, plaintext: bytes, keys: Keys) returns (r: Option<bytes>)
    ensures r == EncryptInitialWithPNLen(c, h, pn, length, plaintext, keys)
    ensures 1 <= length <= 4 ==> r == EncryptInitial(c, h, pn, length, plaintext, keys)
  {
    hide PrintHeader, ApplyHeaderProtection, QuicNonce, BE;
    var pnLen := length;
    if pnLen < 1 || pnLen > 4 {
      pnLen := PacketNumberLen(pn);
    }
    var pnBytes := EncodePacketNumber(pn, pnLen);
    var header := PrintHeader(h, pnLen, pnLen + |plaintext| + 16);
    var pnOffset := |header|;
    header := header + pnBytes;
    var ciphertext := c.seal(keys.key, QuicNonce(keys.iv, pn), plaintext, header);
    var buf := Buffered(header + ciphertext);
    var ok := ApplyInPlace(c, buf, pnOffset, pnLen, keys.hp);
    if !ok {
      return None;
    }
    return Some(buf[..]);
  }

  method DecryptPacket(c: Crypto, data: bytes, keys: Keys, expected: nat) returns (r: Option<Decrypted>)
    ensures r == DecryptInitial(c, data, keys, expected)
  {
    hide ParseInitialPacket, RemoveHeaderProtection, DecodePacketNumber, QuicNonce, BE;
    var pkt := ParseInitialPacket(data);
    if pkt.None? {
      return None;
    }
    var pnOffset := pkt.value.pnOffset;
    var packet := Buffered(data[..pkt.value.packetLen]);
    var pnLen := RemoveInPlace(c, packet, pnOffset, keys.hp);
    if pnLen.None? {
      return None;
    }
    var headerEnd := pnOffset + pnLen.value;
    var pn := DecodeFrom(packet[..], pnOffset, pnLen.value, expected);
    var plaintext := c.open(keys.key, QuicNonce(keys.iv, pn), packet[headerEnd..], packet[..headerEnd]);
    assert packet[..][headerEnd..] == packet[headerEnd..] && packet[..][..headerEnd] == packet[..headerEnd];
    if plaintext.None? {
      return None;
    }
    return Some(Decrypted(plaintext.value, pn, pnLen.value));
  }
}
