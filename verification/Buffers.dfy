/** Writing into a fixed-size buffer at a moving offset. */
module Buffers {
  import opened Bytes

  /** d with s written over it from offset `at`. */
  function Overlay(d: bytes, at: nat, s: bytes): (r: bytes)
    requires at + |s| <= |d|
    ensures |r| == |d|
  {
    d[..at] + s + d[at + |s|..]
  }

  method CopyInto(a: array<byte>, at: nat, s: bytes)
    requires at + |s| <= a.Length
    modifies a
    ensures a[..] == Overlay(old(a[..]), at, s)
  {
    for i := 0 to |s|
      invariant a[..at] == old(a[..at]) && a[at + i..] == old(a[at + i..])
      invariant a[at..at + i] == s[..i]
    {
      ghost var tail := a[at + i..];
      a[at + i] := s[i];
      assert a[at + i + 1..] == tail[1..];
      assert a[at..at + i + 1] == a[at..at + i] + [s[i]];
      assert s[..i + 1] == s[..i] + [s[i]];
    }
    assert s[..|s|] == s;
    assert a[..] == a[..at] + a[at..at + |s|] + a[at + |s|..];
  }

  /** Writes behind the first `at` bytes, which are final. */
  method AppendTo(a: array<byte>, at: nat, s: bytes)
    requires at + |s| <= a.Length
    modifies a
    ensures a[..at + |s|] == old(a[..at]) + s
  {
    CopyInto(a, at, s);
  }
}
