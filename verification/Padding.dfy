/** The two searches for the right amount of zero padding: encryptPaddedInitial and encryptInitialToPacketSize. */
module Padding {
  import opened Bytes
  import opened Varint
  import opened Packet

  /** quicMinimumInitialDatagramSize (section 14.1 of RFC 9000). */
  const MIN_DATAGRAM: nat := 1200

  function EncryptWithPadding(c: Crypto, h: Header, pn: nat, pnLen: nat, plaintext: bytes, keys: Keys, padding: nat): (r: Option<bytes>)
    requires 1 <= pnLen <= 4
  {
    EncryptInitial(c, h, pn, pnLen, plaintext + Zeros(padding), keys)
  }

  // ---- at least the minimum size ------------------------------------------

  /** The padding that lifts a datagram with otherBytes besides this packet to the minimum size. */
  function MissingBytes(h: Header, pnLen: nat, plainLen: nat, otherBytes: nat): (n: nat)
  {
    var size := PacketSize(h, pnLen, plainLen);
    if size + otherBytes >= MIN_DATAGRAM then 0 else MIN_DATAGRAM - otherBytes - size
  }

  function EncryptPaddedInitial(c: Crypto, h: Header, pn: nat, pnLen: nat, plaintext: bytes, keys: Keys, otherBytes: nat): (r: Option<bytes>)
    requires 1 <= pnLen <= 4
  {
    EncryptWithPadding(c, h, pn, pnLen, plaintext, keys,
                       if pnLen + |plaintext| < 4 then 0 else MissingBytes(h, pnLen, |plaintext|, otherBytes))
  }

  /**
   * Padding to the minimum size fails only for packets too short for the header-protection sample. The padded datagram
   * has the minimum size, and overshoots it by at most one byte unless it was larger from the start.
   */
  lemma PaddedInitialFits(c: Crypto, h: Header, pn: nat, pnLen: nat, plaintext: bytes, keys: Keys, otherBytes: nat)
    requires Lawful(c) && 1 <= pnLen <= 4
    ensures var r := EncryptPaddedInitial(c, h, pn, pnLen, plaintext, keys, otherBytes);
      && (r.Some? <==> pnLen + |plaintext| >= 4)
      && (r.Some? ==>
            && |r.value| + otherBytes >= 1200
            && (|r.value| == PacketSize(h, pnLen, |plaintext|) || |r.value| + otherBytes <= 1201))
  {
    var p := if pnLen + |plaintext| < 4 then 0 else MissingBytes(h, pnLen, |plaintext|, otherBytes);
    EncryptedSize(c, h, pn, pnLen, plaintext + Zeros(p), keys);
    hide HeaderSize;
  }

  /** The padding loop: it computes exactly that packet, and the second attempt is always enough. */
  method PadInitial(c: Crypto, h: Header, pn: nat, pnLen: nat, plaintext: bytes, keys: Keys, otherBytes: nat)
    returns (r: Option<bytes>, attempts: nat)
    requires Lawful(c) && 1 <= pnLen <= 4
    ensures r == EncryptPaddedInitial(c, h, pn, pnLen, plaintext, keys, otherBytes)
    ensures attempts <= 2
  {
    hide EncryptInitial, HeaderSize;
    var padding := 0;
    attempts := 0;
    while attempts < 3
      invariant attempts == 0 ==> padding == 0
      invariant attempts > 0 ==> pnLen + |plaintext| >= 4 && padding == MissingBytes(h, pnLen, |plaintext|, otherBytes) > 0
      invariant attempts <= 1
      decreases 3 - attempts
    {
      attempts := attempts + 1;
      var padded := plaintext + Zeros(padding);
      EncryptedSize(c, h, pn, pnLen, padded, keys);
      var encrypted := EncryptPacket(c, h, pn, pnLen, padded, keys);
      if encrypted.None? {
        return None, attempts;
      }
      var missing := MIN_DATAGRAM - otherBytes - |encrypted.value|;
      if missing <= 0 {
        return encrypted, attempts;
      }
      padding := padding + missing;
    }
    return None, attempts;
  }

  // ---- an exact size ------------------------------------------------------

  /** The search for the padding that gives a packet exactly targetSize bytes, starting from `padding`. */
  function SearchPadding(h: Header, pnLen: nat, plainLen: nat, targetSize: nat, padding: nat, attempts: nat): (p: Option<nat>)
    decreases attempts
  {
    if attempts == 0 then None
    else
      var size := PacketSize(h, pnLen, plainLen + padding);
      if size == targetSize then Some(padding)
      else if padding + targetSize < size then None
      else SearchPadding(h, pnLen, plainLen, targetSize, padding + targetSize - size, attempts - 1)
  }

  const ATTEMPTS: nat := 8

  function EncryptInitialToPacketSize(c: Crypto, h: Header, pn: nat, pnLen: nat, plaintext: bytes, keys: Keys, targetSize: nat): (r: Option<bytes>)
    requires 1 <= pnLen <= 4
  {
    if pnLen + |plaintext| < 4 then None
    else
      match SearchPadding(h, pnLen, |plaintext|, targetSize, 0, ATTEMPTS)
      case None => None
      case Some(padding) => EncryptWithPadding(c, h, pn, pnLen, plaintext, keys, padding)
  }

  lemma SizeIncreases(h: Header, pnLen: nat, a: nat, b: nat)
    requires a < b
    ensures PacketSize(h, pnLen, a) < PacketSize(h, pnLen, b)
  {
    VarintLenMonotone(pnLen + a + 16, pnLen + b + 16);
  }

  /** p bytes of padding give the packet exactly this size. */
  predicate Gives(h: Header, pnLen: nat, plainLen: nat, p: nat, targetSize: nat) {
    PacketSize(h, pnLen, plainLen + p) == targetSize
  }

  /** Where some padding gives the size, the first steps of the search go: over it, back below it, onto it. */
  lemma SearchFinds(h: Header, pnLen: nat, plainLen: nat, targetSize: nat, p: nat, attempts: nat)
    requires Gives(h, pnLen, plainLen, p, targetSize) && attempts >= 4
    ensures SearchPadding(h, pnLen, plainLen, targetSize, 0, attempts) == Some(p)
  {
    hide HeaderSize;
    var s0 := PacketSize(h, pnLen, plainLen);
    if p > 0 {
      SizeIncreases(h, pnLen, plainLen, plainLen + p);
      var p1 := targetSize - s0;
      var s1 := PacketSize(h, pnLen, plainLen + p1);
      assert SearchPadding(h, pnLen, plainLen, targetSize, 0, attempts)
          == SearchPadding(h, pnLen, plainLen, targetSize, p1, attempts - 1);
      Overshoot(pnLen + plainLen + 16, p);
      if s1 == targetSize {
        Unique(h, pnLen, plainLen, p, p1, targetSize);
      } else {
        var p2 := p1 + targetSize - s1;
        assert SearchPadding(h, pnLen, plainLen, targetSize, p1, attempts - 1)
            == SearchPadding(h, pnLen, plainLen, targetSize, p2, attempts - 2);
        var s2 := PacketSize(h, pnLen, plainLen + p2);
        if s2 == targetSize {
          Unique(h, pnLen, plainLen, p, p2, targetSize);
        } else {
          assert SearchPadding(h, pnLen, plainLen, targetSize, p2, attempts - 2)
              == SearchPadding(h, pnLen, plainLen, targetSize, p2 + targetSize - s2, attempts - 3);
        }
      }
    }
  }

  /** With payload a unpadded and a + p padded right: the sizes of the Length field along the search. */
  lemma Overshoot(a: nat, p: nat)
    requires p > 0
    ensures var v0, v := VarintLen(a), VarintLen(a + p);
      var x1 := a + p + v - v0;
      var x2 := a + p + v - VarintLen(x1);
      && v0 <= v && x1 >= a + p
      && x2 >= a
      && (x1 != a + p ==> v0 < v)
      && VarintLen(x2) == v
  {
  }

  lemma Unique(h: Header, pnLen: nat, plainLen: nat, p: nat, q: nat, targetSize: nat)
    requires Gives(h, pnLen, plainLen, p, targetSize) && Gives(h, pnLen, plainLen, q, targetSize)
    ensures q == p
  {
  }

  lemma {:induction false} SearchSound(h: Header, pnLen: nat, plainLen: nat, targetSize: nat, padding: nat, attempts: nat)
    requires SearchPadding(h, pnLen, plainLen, targetSize, padding, attempts).Some?
    ensures Gives(h, pnLen, plainLen, SearchPadding(h, pnLen, plainLen, targetSize, padding, attempts).value, targetSize)
    decreases attempts
  {
    var size := PacketSize(h, pnLen, plainLen + padding);
    if size != targetSize {
      SearchSound(h, pnLen, plainLen, targetSize, padding + targetSize - size, attempts - 1);
    }
  }

  /** Some padding gives the packet exactly this size. */
  ghost predicate Reachable(h: Header, pnLen: nat, plainLen: nat, targetSize: nat) {
    exists p: nat :: Gives(h, pnLen, plainLen, p, targetSize)
  }

  /** The search finds the padding whenever there is one, within four of its eight attempts. */
  lemma SearchComplete(h: Header, pnLen: nat, plainLen: nat, targetSize: nat)
    ensures SearchPadding(h, pnLen, plainLen, targetSize, 0, ATTEMPTS).Some? <==> Reachable(h, pnLen, plainLen, targetSize)
    ensures SearchPadding(h, pnLen, plainLen, targetSize, 0, 4) == SearchPadding(h, pnLen, plainLen, targetSize, 0, ATTEMPTS)
  {
    hide Gives;
    if Reachable(h, pnLen, plainLen, targetSize) {
      var p: nat :| Gives(h, pnLen, plainLen, p, targetSize);
      SearchFinds(h, pnLen, plainLen, targetSize, p, 4);
      SearchFinds(h, pnLen, plainLen, targetSize, p, ATTEMPTS);
    }
    if SearchPadding(h, pnLen, plainLen, targetSize, 0, ATTEMPTS).Some? {
      SearchSound(h, pnLen, plainLen, targetSize, 0, ATTEMPTS);
    }
    if SearchPadding(h, pnLen, plainLen, targetSize, 0, 4).Some? {
      SearchSound(h, pnLen, plainLen, targetSize, 0, 4);
    }
  }

  /** encryptInitialToPacketSize succeeds exactly when some padding gives the target size; the packet then has that size. */
  lemma ToPacketSizeExact(c: Crypto, h: Header, pn: nat, pnLen: nat, plaintext: bytes, keys: Keys, targetSize: nat)
    requires Lawful(c) && 1 <= pnLen <= 4
    ensures var r := EncryptInitialToPacketSize(c, h, pn, pnLen, plaintext, keys, targetSize);
      && (r.Some? <==> pnLen + |plaintext| >= 4 && Reachable(h, pnLen, |plaintext|, targetSize))
      && (r.Some? ==>
            && |r.value| == targetSize
            && exists p: nat :: r == EncryptWithPadding(c, h, pn, pnLen, plaintext, keys, p))
  {
    hide PacketSize, EncryptInitial;
    SearchComplete(h, pnLen, |plaintext|, targetSize);
    var search := SearchPadding(h, pnLen, |plaintext|, targetSize, 0, ATTEMPTS);
    if search.Some? {
      SearchSound(h, pnLen, |plaintext|, targetSize, 0, ATTEMPTS);
      EncryptedSize(c, h, pn, pnLen, plaintext + Zeros(search.value), keys);
    }
  }

  /** The size is not too small, and not one of the holes where the Length field itself grows. */
  predicate Paddable(h: Header, pnLen: nat, plainLen: nat, targetSize: nat) {
    && targetSize >= PacketSize(h, pnLen, plainLen)
    && targetSize != HeaderSize(h) + 65
    && targetSize != HeaderSize(h) + 16386 && targetSize != HeaderSize(h) + 16387
    && !(HeaderSize(h) + 0x4000_0004 <= targetSize < HeaderSize(h) + 0x4000_0008)
  }

  /** Which sizes are out of reach: those too small, and the holes where the Length field itself grows. */
  lemma ReachableExactly(h: Header, pnLen: nat, plainLen: nat, targetSize: nat)
    ensures Reachable(h, pnLen, plainLen, targetSize) <==> Paddable(h, pnLen, plainLen, targetSize)
  {
    var a := pnLen + plainLen + 16;
    var m := targetSize - HeaderSize(h);
    if targetSize >= PacketSize(h, pnLen, plainLen) {
      var v := if m <= 64 then 1 else if m <= 16385 then 2 else if m <= 0x4000_0003 then 4 else 8;
      if m - v >= a {
        assert VarintLen(m - v) == v ==> Gives(h, pnLen, plainLen, m - v - a, targetSize);
      }
    }
    if Reachable(h, pnLen, plainLen, targetSize) {
      var p: nat :| Gives(h, pnLen, plainLen, p, targetSize);
      VarintLenMonotone(a, a + p);
    }
  }

  /** The search loop over real packets; `attempts` counts the encryptions. */
  method PadToPacketSize(c: Crypto, h: Header, pn: nat, pnLen: nat, plaintext: bytes, keys: Keys, targetSize: nat)
    returns (r: Option<bytes>, attempts: nat)
    requires Lawful(c) && 1 <= pnLen <= 4
    ensures r == EncryptInitialToPacketSize(c, h, pn, pnLen, plaintext, keys, targetSize)
    ensures r.Some? ==> attempts <= 4
  {
    hide EncryptInitial, PacketSize;
    var padding: nat := 0;
    attempts := 0;
    ghost var n := |plaintext|;
    ghost var found := SearchPadding(h, pnLen, n, targetSize, 0, ATTEMPTS);
    SearchComplete(h, pnLen, n, targetSize);
    while attempts < ATTEMPTS
      invariant attempts <= ATTEMPTS
      invariant pnLen + n < 4 ==> attempts == 0
      invariant attempts == 0 ==> padding == 0
      invariant found == SearchPadding(h, pnLen, n, targetSize, padding, ATTEMPTS - attempts)
      invariant found.Some? ==> attempts < 4 && SearchPadding(h, pnLen, n, targetSize, padding, 4 - attempts) == found
    {
      attempts := attempts + 1;
      var padded := plaintext + Zeros(padding);
      EncryptedSize(c, h, pn, pnLen, padded, keys);
      var encrypted := EncryptPacket(c, h, pn, pnLen, padded, keys);
      if encrypted.None? {
        assert pnLen + n < 4;
        return None, attempts;
      }
      if |encrypted.value| == targetSize {
        return encrypted, attempts;
      }
      var adjustment := targetSize - |encrypted.value|;
      if padding + adjustment < 0 {
        return None, attempts;
      }
      padding := padding + adjustment;
    }
    return None, attempts;
  }
}
