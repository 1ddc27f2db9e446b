/** Variable-length integers (section 16 of RFC 9000): readVarint, writeVarint and varintAt. */
module Varint {
  import opened Bytes

  const MAX_VARINT: nat := 0x4000_0000_0000_0000

  datatype VarintRead = VarintRead(value: nat, size: nat)
  datatype At = At(value: nat, next: nat)

  /** The size a first byte announces. */
  function AnnouncedSize(first: byte): (n: nat)
    ensures n == 1 || n == 2 || n == 4 || n == 8
  {
    if first / 64 == 0 then 1
    else if first / 64 == 1 then 2
    else if first / 64 == 2 then 4
    else 8
  }

  function ReadVarint(b: bytes): (r: Option<VarintRead>)
    ensures r.Some? ==> 1 <= r.value.size <= |b| && r.value.value < MAX_VARINT
  {
    if |b| == 0 then None
    else
      var n := AnnouncedSize(b[0]);
      if |b| < n then None
      else
        BEBound(b[1..n]);
        PowerValues();
        Some(VarintRead((b[0] % 64) * Pow256(n - 1) + BE(b[1..n]), n))
  }

  /** The bytes writeVarint uses for v. */
  function VarintLen(v: nat): (n: nat)
    ensures n == 1 || n == 2 || n == 4 || n == 8
  {
    if v <= 0x3f then 1
    else if v <= 0x3fff then 2
    else if v <= 0x3fff_ffff then 4
    else 8
  }

  function Tag(n: nat): (t: nat)
    requires n == 1 || n == 2 || n == 4 || n == 8
    ensures t < 4
  {
    if n == 1 then 0 else if n == 2 then 1 else if n == 4 then 2 else 3
  }

  /** Values of 2^62 and more lose their upper bits, as the source's mask does. */
  function WriteVarint(v: nat): (b: bytes)
    ensures |b| == VarintLen(v)
  {
    var n := VarintLen(v);
    [64 * Tag(n) + TopBits(v)] + ToBE(v, n - 1)
  }

  /** The six bits that share the first byte with the length tag. */
  function TopBits(v: nat): (top: nat)
    ensures top < 64
  {
    (v / Pow256(VarintLen(v) - 1)) % 64
  }

  /** v split into top * p + low with p = 256^(n-1), then the top reduced modulo 64. */
  lemma SplitTop(v: nat, p: nat)
    requires p > 0
    ensures v % (64 * p) == ((v / p) % 64) * p + v % p
  {
    var q, r := v / p, v % p;
    SplitTopOf(q / 64, q % 64, p, r);
    assert v == (64 * (q / 64) + q % 64) * p + r;
    DivModUnique(v, 64 * p, q / 64, (q % 64) * p + r);
  }

  lemma SplitTopOf(a: nat, b: nat, p: nat, r: nat)
    requires b < 64 && r < p
    ensures (64 * a + b) * p + r == a * (64 * p) + (b * p + r)
    ensures b * p + r < 64 * p
  {
    assert (64 * a + b) * p == (64 * a) * p + b * p;
    assert (64 * a) * p == a * (64 * p);
    assert 64 * p == b * p + (64 - b) * p;
    MulAtLeast(64 - b, p);
  }

  lemma PowerValues()
    ensures Pow256(0) == 1 && Pow256(1) == 0x100 && Pow256(2) == 0x1_0000 && Pow256(3) == 0x100_0000
    ensures Pow256(4) == 0x1_0000_0000 && Pow256(7) == 0x100_0000_0000_0000
  {
  }

  /** Reading back what was written: the value, the size, and no byte more, whatever follows. */
  lemma WriteRead(v: nat, rest: bytes)
    ensures ReadVarint(WriteVarint(v) + rest) == Some(VarintRead(v % MAX_VARINT, VarintLen(v)))
    ensures v < MAX_VARINT ==> v % MAX_VARINT == v
  {
    hide ReadVarint, BE, ToBE, Pow256, VarintLen, Tag, TopBits;
    TopAndDigits(v);
    ReadTagged(VarintLen(v), TopBits(v), ToBE(v, VarintLen(v) - 1), rest);
  }

  lemma TopAndDigits(v: nat)
    ensures var n := VarintLen(v); TopBits(v) * Pow256(n - 1) + BE(ToBE(v, n - 1)) == v % MAX_VARINT
    ensures v < MAX_VARINT ==> v % MAX_VARINT == v
  {
    hide BE, ToBE, Pow256, VarintLen;
    var n := VarintLen(v);
    SplitTop(v, Pow256(n - 1));
    LowBits(v);
    BERoundTrip(v, n - 1);
  }

  /** What is read behind a length tag: the top bits, then the digits. */
  lemma ReadTagged(n: nat, top: nat, digits: bytes, rest: bytes)
    requires n == 1 || n == 2 || n == 4 || n == 8
    requires top < 64 && |digits| == n - 1
    ensures ReadVarint([64 * Tag(n) + top] + digits + rest) == Some(VarintRead(top * Pow256(n - 1) + BE(digits), n))
  {
    hide BE, Pow256, AnnouncedSize, Tag;
    TagSize(n, top);
    var b := [64 * Tag(n) + top] + digits + rest;
    assert b[0] == 64 * Tag(n) + top;
    assert b[1..n] == digits;
  }

  lemma TagSize(n: nat, top: nat)
    requires n == 1 || n == 2 || n == 4 || n == 8
    requires top < 64
    ensures AnnouncedSize(64 * Tag(n) + top) == n && (64 * Tag(n) + top) % 64 == top
  {
  }

  lemma LowBits(v: nat)
    ensures v % (64 * Pow256(VarintLen(v) - 1)) == v % MAX_VARINT
  {
    PowerValues();
  }

  /**
   * The format of section 16 of RFC 9000: the two top bits of the first byte are the base-2 logarithm of the length, and
   * the other bits are the value in network order.
   */
  lemma ReadByTag(b: bytes)
    requires b != []
    ensures var tag, n := b[0] / 64, Pow2(b[0] / 64);
      && (ReadVarint(b).Some? <==> |b| >= n)
      && (|b| >= n ==>
            && ReadVarint(b).value.size == n
            && BE(b[..n]) == tag * (64 * Pow256(n - 1)) + ReadVarint(b).value.value
            && ReadVarint(b).value.value < 64 * Pow256(n - 1))
  {
    assert Pow2(0) == 1 && Pow2(1) == 2 && Pow2(2) == 4 && Pow2(3) == 8;
    var n := Pow2(b[0] / 64);
    if |b| >= n {
      BEHead(b[..n]);
      assert b[..n][1..] == b[1..n];
      BEBound(b[1..n]);
      TagAndTop(b[0], Pow256(n - 1), BE(b[1..n]));
    }
  }

  lemma TagAndTop(first: byte, p: nat, low: nat)
    requires low < p
    ensures first * p + low == first / 64 * (64 * p) + (first % 64 * p + low)
    ensures first % 64 * p + low < 64 * p
  {
    SplitTopOf(first / 64, first % 64, p, low);
  }

  /** writeVarint never uses more bytes than any encoding the reader accepts. */
  lemma WriteIsShortest(b: bytes)
    requires ReadVarint(b).Some?
    ensures VarintLen(ReadVarint(b).value.value) <= ReadVarint(b).value.size
  {
    var n := ReadVarint(b).value.size;
    BEBound(b[1..n]);
    PowerValues();
  }

  lemma VarintLenMonotone(a: nat, b: nat)
    requires a <= b
    ensures VarintLen(a) <= VarintLen(b)
  {
  }

  function VarintAt(data: bytes, off: nat): (r: Option<At>)
    ensures r.Some? ==> off < r.value.next <= |data| && r.value.value < MAX_VARINT
  {
    if off >= |data| then None
    else
      match ReadVarint(data[off..])
      case None => None
      case Some(v) => Some(At(v.value, off + v.size))
  }

  // ---- locality -----------------------------------------------------------

  /** Bytes lo..hi of d reappear in e, moved by delta. */
  ghost predicate Agree(d: bytes, e: bytes, delta: int, lo: nat, hi: nat)
  {
    && lo <= hi <= |d|
    && 0 <= lo + delta && hi + delta <= |e|
    && forall j {:trigger d[j]} :: lo <= j < hi ==> d[j] == e[j + delta]
  }

  lemma AgreeWithin(d: bytes, e: bytes, delta: int, lo: nat, hi: nat, a: nat, b: nat)
    requires Agree(d, e, delta, lo, hi)
    requires lo <= a <= b <= hi
    ensures Agree(d, e, delta, a, b)
  {
  }

  lemma AgreeAt(d: bytes, e: bytes, delta: int, lo: nat, hi: nat)
    requires Agree(d, e, delta, lo, hi)
    ensures lo <= hi <= |d| && 0 <= lo + delta && hi + delta <= |e|
    ensures lo < hi ==> d[lo] == e[lo + delta]
  {
  }

  lemma AgreeSlice(d: bytes, e: bytes, delta: int, lo: nat, hi: nat, a: nat, b: nat)
    requires Agree(d, e, delta, lo, hi)
    requires lo <= a <= b <= hi
    ensures d[a..b] == e[a + delta..b + delta]
  {
    forall i | 0 <= i < b - a
      ensures d[a..b][i] == e[a + delta..b + delta][i]
    {
      assert d[a + i] == e[a + i + delta];
    }
  }

  /** A varint is read from its own bytes only, wherever they stand. */
  lemma VarintLocal(d: bytes, e: bytes, delta: int, off: nat, hi: nat)
    requires VarintAt(d, off).Some? && VarintAt(d, off).value.next <= hi
    requires Agree(d, e, delta, off, hi)
    ensures VarintAt(e, off + delta)
         == Some(At(VarintAt(d, off).value.value, VarintAt(d, off).value.next + delta))
  {
    var n := VarintAt(d, off).value.next - off;
    assert d[off] == e[off + delta];
    AgreeSlice(d, e, delta, off, hi, off + 1, off + n);
    assert d[off..][1..n] == d[off + 1..off + n];
    assert e[off + delta..][1..n] == e[off + delta + 1..off + delta + n];
  }

  /** A printed varint is found at its place. */
  lemma VarintAtWritten(pre: bytes, v: nat, rest: bytes)
    requires v < MAX_VARINT
    ensures VarintAt(pre + WriteVarint(v) + rest, |pre|) == Some(At(v, |pre| + VarintLen(v)))
  {
    var w := WriteVarint(v);
    assert (pre + w + rest)[|pre|..] == w + rest;
    WriteRead(v, rest);
  }

  lemma TwoVarintsWritten(pre: bytes, a: nat, b: nat, rest: bytes)
    requires a < MAX_VARINT && b < MAX_VARINT
    ensures var d := pre + WriteVarint(a) + WriteVarint(b) + rest;
      && VarintAt(d, |pre|) == Some(At(a, |pre| + VarintLen(a)))
      && VarintAt(d, |pre| + VarintLen(a)) == Some(At(b, |pre| + VarintLen(a) + VarintLen(b)))
  {
    hide VarintAt, WriteVarint;
    var w1, w2 := WriteVarint(a), WriteVarint(b);
    assert pre + w1 + w2 + rest == pre + w1 + (w2 + rest);
    VarintAtWritten(pre, a, w2 + rest);
    VarintAtWritten(pre + w1, b, rest);
  }
}
