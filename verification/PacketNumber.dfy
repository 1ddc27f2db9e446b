/** Packet-number coding (section 17.1 and appendix A.3 of RFC 9000) and the AEAD nonce. */
module PacketNumber {
  import opened Bytes
  import opened Varint

  /** One more than the largest packet number. */
  const MAX_PN: nat := MAX_VARINT

  function PacketNumberLen(pn: nat): (n: nat)
    ensures 1 <= n <= 4
  {
    if pn <= 0xff then 1
    else if pn <= 0xffff then 2
    else if pn <= 0xff_ffff then 3
    else 4
  }

  /** It is the shortest length that holds the number, and four bytes where none does. */
  lemma PacketNumberLenShortest(pn: nat, n: nat)
    requires 1 <= n <= 4
    ensures pn < 0x1_0000_0000 ==> (pn < Pow256(n) <==> PacketNumberLen(pn) <= n)
    ensures pn >= 0x1_0000_0000 ==> PacketNumberLen(pn) == 4
  {
    PowerValues();
  }

  // Division by a window that varies is kept behind these two names.
  function Quo(v: nat, w: nat): nat
    requires w > 0
  {
    v / w
  }

  function Rem(v: nat, w: nat): (r: nat)
    requires w > 0
    ensures r < w && r <= v
  {
    v % w
  }

  /** The number nearest to `expected` among those ending in `truncated`, unless that leaves 0 .. 2^62-1. */
  function DecodePacketNumber(truncated: nat, pnLen: nat, expected: nat): (pn: nat)
  {
    var window := Pow256(pnLen);
    var candidate := expected - Rem(expected, window) + truncated;
    if candidate + window / 2 <= expected && candidate + window <= MAX_PN - 1 then candidate + window
    else if candidate > expected + window / 2 && candidate >= window then candidate - window
    else candidate
  }

  ghost predicate InWindow(pn: nat, pnLen: nat, expected: nat)
  {
    var half := Pow256(pnLen) / 2;
    expected < pn + half && pn <= expected + half
  }

  /**
   * Outside the window the number survives only where the decoder would have to leave 0 .. 2^62-1:
   * it then keeps its first candidate, which shares the upper digits of `expected`.
   */
  ghost predicate AtTheEdge(pn: nat, pnLen: nat, expected: nat)
  {
    var window := Pow256(pnLen);
    && Quo(pn, window) == Quo(expected, window)
    && ((pn + window / 2 <= expected && pn + window >= MAX_PN)
        || (pn > expected + window / 2 && pn < window))
  }

  lemma WindowValues(pnLen: nat)
    requires 1 <= pnLen <= 4
    ensures 0x100 <= Pow256(pnLen) <= 0x1_0000_0000 && Pow256(pnLen) % 2 == 0
  {
    PowerValues();
  }

  lemma QuoRem(v: nat, w: nat)
    requires w > 0
    ensures v == Quo(v, w) * w + Rem(v, w) && Rem(v, w) < w
  {
  }

  lemma QuoRemUnique(q: nat, r: nat, w: nat)
    requires r < w
    ensures Quo(q * w + r, w) == q && Rem(q * w + r, w) == r
  {
    DivModUnique(q * w + r, w, q, r);
  }

  lemma Multiple(k: int, w: nat)
    requires w > 0
    ensures k == 0 ==> k * w == 0
    ensures k == 1 ==> k * w == w
    ensures k == -1 ==> k * w + w == 0
    ensures k >= 2 ==> k * w >= 2 * w
    ensures k <= -2 ==> k * w + 2 * w <= 0
  {
    if k >= 2 {
      MulAtLeast(k - 1, w);
      assert k * w == (k - 1) * w + w;
    } else if k <= -2 {
      MulAtLeast(-k - 1, w);
      assert (-k) * w == (-k - 1) * w + w;
      assert k * w == -((-k) * w);
    }
  }

  /** The window-aligned parts of two numbers are a whole number of windows apart. */
  lemma Distance(a: nat, b: nat, w: nat)
    requires w > 0
    ensures var d := (a - Rem(a, w)) - (b - Rem(b, w));
      && (d == 0 || d == w || d + w == 0 || d >= 2 * w || d + 2 * w <= 0)
      && (d == 0 <==> Quo(a, w) == Quo(b, w))
    ensures Rem(a, w) < w && Rem(b, w) < w && Rem(a, w) <= a && Rem(b, w) <= b
  {
    hide Quo, Rem;
    QuoRem(a, w);
    QuoRem(b, w);
    Multiple(Quo(a, w) - Quo(b, w), w);
    assert (Quo(a, w) - Quo(b, w)) * w == Quo(a, w) * w - Quo(b, w) * w;
  }

  /** A receiver expecting `expected` reads number pn off its pnLen-byte encoding. */
  ghost predicate Decodes(pn: nat, pnLen: nat, expected: nat) {
    DecodePacketNumber(BE(ToBE(pn, pnLen)), pnLen, expected) == pn
  }

  /** Decoding an encoded number gives it back exactly when it lies in the window or at the edge of the number space. */
  lemma DecodeExact(pn: nat, pnLen: nat, expected: nat)
    requires 1 <= pnLen <= 4 && pn < MAX_PN && expected <= MAX_PN
    ensures Decodes(pn, pnLen, expected) <==> InWindow(pn, pnLen, expected) || AtTheEdge(pn, pnLen, expected)
  {
    var w := Pow256(pnLen);
    assert BE(ToBE(pn, pnLen)) == Rem(pn, w) by {
      BERoundTrip(pn, pnLen);
    }
    hide Quo, Rem;
    WindowValues(pnLen);
    Distance(pn, expected, w);
  }

  /** No step of the decoder leaves 64 bits, and its result is a packet number. */
  lemma DecodeFits(truncated: nat, pnLen: nat, expected: nat)
    requires 1 <= pnLen <= 4 && truncated < Pow256(pnLen) && expected <= MAX_PN
    ensures expected - Rem(expected, Pow256(pnLen)) + truncated + Pow256(pnLen) < 0x1_0000_0000_0000_0000
    ensures expected < MAX_PN ==> DecodePacketNumber(truncated, pnLen, expected) < MAX_PN
  {
    hide Quo, Rem;
    WindowValues(pnLen);
    if expected < MAX_PN {
      BelowTheTop(expected, pnLen);
    }
  }

  /** The decoded number ends in the digits on the wire. */
  lemma DecodeEndsIn(truncated: nat, pnLen: nat, expected: nat)
    requires 1 <= pnLen <= 4 && truncated < Pow256(pnLen)
    ensures Rem(DecodePacketNumber(truncated, pnLen, expected), Pow256(pnLen)) == truncated
  {
    hide Quo, Rem;
    var w := Pow256(pnLen);
    var q := Quo(expected, w);
    QuoRem(expected, w);
    var pn := DecodePacketNumber(truncated, pnLen, expected);
    if pn == q * w + truncated {
      QuoRemUnique(q, truncated, w);
    } else if pn == q * w + truncated + w {
      assert (q + 1) * w == q * w + w;
      QuoRemUnique(q + 1, truncated, w);
    } else {
      Multiple(q, w);
      assert q > 0;
      assert (q - 1) * w == q * w - w;
      QuoRemUnique(q - 1, truncated, w);
    }
  }

  /** A number read off a packet is read off its re-encoding of the same length too. */
  lemma ReadAgain(digits: bytes, expected: nat)
    requires 1 <= |digits| <= 4
    ensures Decodes(DecodePacketNumber(BE(digits), |digits|, expected), |digits|, expected)
  {
    BEBound(digits);
    var pn := DecodePacketNumber(BE(digits), |digits|, expected);
    DecodeEndsIn(BE(digits), |digits|, expected);
    BERoundTrip(pn, |digits|);
  }

  /** 2^62 is a multiple of every window, so the window holding `expected` ends at or below it. */
  lemma BelowTheTop(expected: nat, pnLen: nat)
    requires 1 <= pnLen <= 4 && expected < MAX_PN
    ensures expected - Rem(expected, Pow256(pnLen)) + Pow256(pnLen) <= MAX_PN
  {
    hide Quo, Rem;
    PowerValues();
    var k := if pnLen == 1 then 0x40_0000_0000_0000 else if pnLen == 2 then 0x4000_0000_0000
      else if pnLen == 3 then 0x40_0000_0000 else 0x4000_0000;
    WindowBelow(expected, Pow256(pnLen), k);
  }

  lemma WindowBelow(v: nat, w: nat, k: nat)
    requires w > 0 && v < k * w
    ensures v - Rem(v, w) + w <= k * w
  {
    hide Quo, Rem;
    QuoRem(v, w);
    var d := Quo(v, w) + 1 - k;
    Multiple(d, w);
    assert d * w == Quo(v, w) * w + w - k * w;
  }

  /** A number short enough for its encoding is decoded by a receiver that has seen nothing, or all its predecessors. */
  lemma FreshNumbersDecode(pn: nat, pnLen: nat)
    requires 1 <= pnLen <= 4 && pn <= Pow256(pnLen) / 2
    ensures InWindow(pn, pnLen, 0) && InWindow(pn, pnLen, pn)
  {
    WindowValues(pnLen);
  }

  method EncodePacketNumber(pn: nat, pnLen: nat) returns (b: bytes)
    ensures b == ToBE(pn, pnLen)
  {
    var a := new byte[pnLen];
    var i := pnLen;
    var rest := pn;
    while i > 0
      invariant 0 <= i <= pnLen
      invariant ToBE(pn, pnLen) == ToBE(rest, i) + a[i..]
    {
      i := i - 1;
      a[i] := rest % 256;
      assert ToBE(rest, i + 1) == ToBE(rest / 256, i) + [rest % 256];
      assert a[i..] == [rest % 256] + a[i + 1..];
      rest := rest / 256;
    }
    b := a[..];
  }

  method DecodeFrom(header: bytes, pnOffset: nat, pnLen: nat, expected: nat) returns (pn: nat)
    requires pnOffset + pnLen <= |header|
    ensures pn == DecodePacketNumber(BE(header[pnOffset..pnOffset + pnLen]), pnLen, expected)
  {
    var truncated: nat := 0;
    for i := 0 to pnLen
      invariant truncated == BE(header[pnOffset..pnOffset + i])
    {
      var s := header[pnOffset..pnOffset + i + 1];
      assert s[..|s| - 1] == header[pnOffset..pnOffset + i];
      truncated := 256 * truncated + header[pnOffset + i];
    }
    pn := DecodePacketNumber(truncated, pnLen, expected);
  }

  // ---- nonce --------------------------------------------------------------

  type Iv = s: bytes | |s| == 12 witness Zeros(12)

  /** The AEAD nonce: the IV xor-ed with the packet number, left-padded to twelve bytes. */
  function QuicNonce(iv: Iv, pn: nat): (nonce: Iv)
  {
    var padded := Zeros(4) + ToBE(pn, 8);
    seq(12, i requires 0 <= i < 12 => XorByte(padded[i], iv[i]))
  }

  /**
   * The nonce of section 5.3 of RFC 9001, byte by byte: unmasked with the IV it is four zero bytes and the number in
   * network order; so its first four bytes are the IV's, and its last eight, unmasked, read as the number.
   */
  lemma NonceUnmasks(iv: Iv, pn: nat, digits: bytes)
    requires pn < MAX_PN
    requires |digits| == 8 && forall i :: 0 <= i < 8 ==> digits[i] == XorByte(QuicNonce(iv, pn)[4 + i], iv[4 + i])
    ensures forall i :: 0 <= i < 4 ==> QuicNonce(iv, pn)[i] == iv[i]
    ensures BE(digits) == pn
  {
    hide ToBE, BE, XorByte, QuicNonce;
    forall i | 0 <= i < 4
      ensures QuicNonce(iv, pn)[i] == iv[i]
    {
      NonceStart(iv, pn, i);
    }
    forall i | 0 <= i < 8
      ensures digits[i] == ToBE(pn, 8)[i]
    {
      NonceAt(iv, pn, i);
      Unmasked(ToBE(pn, 8)[i], iv[4 + i]);
    }
    assert digits == ToBE(pn, 8);
    AllDigits(pn);
  }

  lemma Unmasked(x: byte, k: byte)
    ensures XorByte(XorByte(x, k), k) == x
  {
    XorCancel(x, k);
  }

  lemma NonceStart(iv: Iv, pn: nat, i: nat)
    requires i < 4
    ensures QuicNonce(iv, pn)[i] == iv[i]
  {
    hide ToBE;
    assert (Zeros(4) + ToBE(pn, 8))[i] == 0;
    XorCommutes(0, iv[i]);
    XorZero(iv[i]);
  }

  /** Distinct packet numbers never share a nonce. */
  lemma NonceInjective(iv: Iv, a: nat, b: nat)
    requires a < MAX_PN && b < MAX_PN
    requires QuicNonce(iv, a) == QuicNonce(iv, b)
    ensures a == b
  {
    hide ToBE, XorByte, QuicNonce;
    var x, y := ToBE(a, 8), ToBE(b, 8);
    forall i | 0 <= i < 8
      ensures x[i] == y[i]
    {
      NonceAt(iv, a, i);
      NonceAt(iv, b, i);
      XorInjective(x[i], y[i], iv[4 + i]);
    }
    assert x == y;
    SameDigits(a, b);
  }

  lemma XorInjective(x: byte, y: byte, k: byte)
    requires XorByte(x, k) == XorByte(y, k)
    ensures x == y
  {
    XorCancel(x, k);
    XorCancel(y, k);
    hide XorByte;
  }

  lemma NonceAt(iv: Iv, pn: nat, i: nat)
    requires i < 8
    ensures QuicNonce(iv, pn)[4 + i] == XorByte(ToBE(pn, 8)[i], iv[4 + i])
  {
    hide ToBE, XorByte;
    assert (Zeros(4) + ToBE(pn, 8))[4 + i] == ToBE(pn, 8)[i];
  }

  lemma SameDigits(a: nat, b: nat)
    requires a < MAX_PN && b < MAX_PN && ToBE(a, 8) == ToBE(b, 8)
    ensures a == b
  {
    AllDigits(a);
    AllDigits(b);
  }

  lemma AllDigits(a: nat)
    requires a < MAX_PN
    ensures BE(ToBE(a, 8)) == a
  {
    PowerValues();
    assert Pow256(8) == 256 * Pow256(7);
    hide ToBE, BE, Pow256;
    BERoundTrip(a, 8);
  }
}
