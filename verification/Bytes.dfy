/** Bytes, big-endian numbers and bitwise exclusive or, the ground the wire formats stand on. */
module Bytes {
  type byte = x: int | 0 <= x < 256
  type bytes = seq<byte>

  datatype Option<+T> = None | Some(value: T)

  /** n zero bytes. */
  function Zeros(n: nat): (z: bytes)
    ensures |z| == n
    ensures forall i :: 0 <= i < n ==> z[i] == 0
  {
    seq(n, _ => 0)
  }

  /** The bytes of several packets together. */
  function TotalSize(ps: seq<bytes>): (n: nat)
  {
    if ps == [] then 0 else |ps[0]| + TotalSize(ps[1..])
  }

  lemma {:induction false} TotalSizeAppend(a: seq<bytes>, b: seq<bytes>)
    ensures TotalSize(a + b) == TotalSize(a) + TotalSize(b)
  {
    if a == [] {
      assert a + b == b;
    } else {
      assert (a + b)[1..] == a[1..] + b;
      TotalSizeAppend(a[1..], b);
    }
  }

  function Pow256(n: nat): (p: nat)
    ensures p > 0
  {
    if n == 0 then 1 else 256 * Pow256(n - 1)
  }

  /** The number whose big-endian digits are s. */
  function BE(s: bytes): (v: nat)
  {
    if s == [] then 0 else 256 * BE(s[..|s| - 1]) + s[|s| - 1]
  }

  /** The low n base-256 digits of v, most significant first. */
  function ToBE(v: nat, n: nat): (s: bytes)
    ensures |s| == n
  {
    if n == 0 then [] else ToBE(v / 256, n - 1) + [v % 256]
  }

  lemma {:induction false} ModStep(v: nat, p: nat)
    requires p > 0
    ensures v % (256 * p) == 256 * ((v / 256) % p) + v % 256
  {
    var q, r := v / 256, v % 256;
    var a, b := q / p, q % p;
    assert q == a * p + b;
    assert v == 256 * (a * p + b) + r;
    assert v == a * (256 * p) + (256 * b + r);
    assert 0 <= 256 * b + r < 256 * p;
    DivModUnique(v, 256 * p, a, 256 * b + r);
  }

  lemma MulAtLeast(a: nat, m: nat)
    requires a >= 1
    ensures a * m >= m
  {
    assert a * m == (a - 1) * m + m;
  }

  lemma {:induction false} DivModUnique(v: nat, m: nat, q: nat, r: nat)
    requires m > 0 && v == q * m + r && r < m
    ensures v / m == q && v % m == r
  {
    var q', r' := v / m, v % m;
    assert v == q' * m + r' && 0 <= r' < m;
    assert (q - q') * m == q * m - q' * m;
    assert (q' - q) * m == q' * m - q * m;
    if q > q' {
      MulAtLeast(q - q', m);
    } else if q < q' {
      MulAtLeast(q' - q, m);
    }
  }

  /** Writing n digits and reading them back keeps the value modulo 256^n. */
  lemma {:induction false} BERoundTrip(v: nat, n: nat)
    ensures BE(ToBE(v, n)) == v % Pow256(n)
  {
    if n == 0 {
    } else {
      BERoundTrip(v / 256, n - 1);
      var s := ToBE(v, n);
      assert s[..|s| - 1] == ToBE(v / 256, n - 1);
      ModStep(v, Pow256(n - 1));
    }
  }

  /** The first digit weighs as many powers as digits follow. */
  lemma {:induction false} BEHead(s: bytes)
    requires s != []
    ensures BE(s) == s[0] * Pow256(|s| - 1) + BE(s[1..])
  {
    var k := |s| - 1;
    if k > 0 {
      BEHead(s[..k]);
      assert s[..k][1..] == s[1..][..k - 1] && s[1..][k - 1] == s[k];
      HeadWeight(s[0], Pow256(k - 1));
    } else {
      assert s[1..] == [] && s[..0] == [];
    }
  }

  lemma HeadWeight(x: nat, p: nat)
    ensures 256 * (x * p) == x * (256 * p)
  {
  }

  lemma {:induction false} BEBound(s: bytes)
    ensures BE(s) < Pow256(|s|)
  {
    if s == [] {
    } else {
      BEBound(s[..|s| - 1]);
    }
  }

  /** Reading digits and writing them back gives the same digits. */
  lemma {:induction false} ToBERoundTrip(s: bytes)
    ensures ToBE(BE(s), |s|) == s
  {
    if s == [] {
    } else {
      ToBERoundTrip(s[..|s| - 1]);
      assert s == s[..|s| - 1] + [s[|s| - 1]];
    }
  }

  // ---- exclusive or -------------------------------------------------------

  /** Bitwise exclusive or of two naturals, least significant bit first. */
  function Xor(a: nat, b: nat): (r: nat)
    decreases a + b
  {
    if a == 0 && b == 0 then 0 else (a + b) % 2 + 2 * Xor(a / 2, b / 2)
  }

  /** Applying the same mask twice restores the value. */
  lemma {:induction false} XorCancel(a: nat, b: nat)
    ensures Xor(Xor(a, b), b) == a
    decreases a + b
  {
    hide Xor;
    if a == 0 && b == 0 {
      XorZero(0);
    } else {
      var x := Xor(a, b);
      var y := Xor(x, b);
      XorCancel(a / 2, b / 2);
      XorHalf(a, b);
      XorHalf(x, b);
      XorParity(a, b);
      XorParity(x, b);
      assert y / 2 == a / 2 && y % 2 == a % 2;
    }
  }

  lemma {:induction false} XorParity(a: nat, b: nat)
    ensures Xor(a, b) % 2 == (a + b) % 2
  {
  }

  lemma {:induction false} XorBelow(a: nat, b: nat, n: nat)
    requires a < Pow2(n) && b < Pow2(n)
    ensures Xor(a, b) < Pow2(n)
    decreases n
  {
    if n == 0 {
    } else if a == 0 && b == 0 {
    } else {
      XorBelow(a / 2, b / 2, n - 1);
    }
  }

  function Pow2(n: nat): (p: nat)
    ensures p > 0
  {
    if n == 0 then 1 else 2 * Pow2(n - 1)
  }

  function XorByte(a: byte, b: byte): (r: byte)
  {
    assert Pow2(8) == 256;
    XorBelow(a, b, 8);
    Xor(a, b)
  }

  /** Exclusive or with a nibble leaves the high nibble alone. */
  lemma {:induction false} XorKeepsHighNibble(a: byte, b: byte)
    requires b < 16
    ensures XorByte(a, b) / 16 == a / 16
  {
    var a1, b1 := a / 2, b / 2;
    var a2, b2 := a1 / 2, b1 / 2;
    var a3, b3 := a2 / 2, b2 / 2;
    var a4, b4 := a3 / 2, b3 / 2;
    assert b4 == 0 && a4 == a / 16;
    XorZero(a4);
    XorHalf(a, b);
    XorHalf(a1, b1);
    XorHalf(a2, b2);
    XorHalf(a3, b3);
  }

  lemma {:induction false} XorHalf(a: nat, b: nat)
    ensures Xor(a, b) / 2 == Xor(a / 2, b / 2)
  {
  }

  lemma {:induction false} XorCommutes(a: nat, b: nat)
    ensures Xor(a, b) == Xor(b, a)
    decreases a + b
  {
    if a != 0 || b != 0 {
      XorCommutes(a / 2, b / 2);
    }
  }

  lemma {:induction false} XorZero(a: nat)
    ensures Xor(a, 0) == a
  {
    if a == 0 {
    } else {
      XorZero(a / 2);
    }
  }
}
