/** ClientHello messages as they are written (section 4.1.2 of RFC 8446, section 3 of RFC 6066), and what is found in them. */
module HelloShape {
  import opened Bytes
  import opened Varint
  import opened Framing
  import opened Reassembly
  import opened ClientHello
  import opened Splitting
  import opened TlsRecord

  // ---- the message --------------------------------------------------------

  datatype Extension = Extension(kind: nat, body: bytes)

  datatype Hello = Hello(version: bytes, random: bytes, session: bytes, suites: bytes, compression: bytes, extensions: seq<Extension>)

  predicate ValidExtensions(es: seq<Extension>) {
    forall i :: 0 <= i < |es| ==> es[i].kind < 0x1_0000 && |es[i].body| < 0x1_0000
  }

  function PrintExtension(e: Extension): (b: bytes) {
    ToBE(e.kind, 2) + ToBE(|e.body|, 2) + e.body
  }

  function PrintExtensions(es: seq<Extension>): (b: bytes) {
    if es == [] then [] else PrintExtension(es[0]) + PrintExtensions(es[1..])
  }

  /** The lengths fit their fields. */
  ghost predicate ValidHello(h: Hello) {
    && |h.version| == 2 && |h.random| == 32 && |h.session| < 256 && |h.suites| < 0x1_0000 && |h.compression| < 256
    && ValidExtensions(h.extensions) && |PrintExtensions(h.extensions)| < 0x1_0000
  }

  /** The fields in front of the extension list. */
  function Front(h: Hello): (b: bytes)
    requires |h.session| < 256 && |h.compression| < 256
  {
    h.version + h.random + [|h.session|] + h.session + ToBE(|h.suites|, 2) + h.suites + [|h.compression|] + h.compression
  }

  function Body(h: Hello): (b: bytes)
    requires |h.session| < 256 && |h.compression| < 256
  {
    Front(h) + ToBE(|PrintExtensions(h.extensions)|, 2) + PrintExtensions(h.extensions)
  }

  /** A handshake message of type ClientHello. */
  function PrintHello(h: Hello): (b: bytes)
    requires |h.session| < 256 && |h.compression| < 256
  {
    [0x01] + ToBE(|Body(h)|, 3) + Body(h)
  }

  /** The server_name extension: three bytes of list length and name type, then the name behind its length, then anything. */
  ghost predicate Names(e: Extension, name: bytes) {
    && e.kind == 0 && |name| < 0x1_0000 && |e.body| >= 5 + |name|
    && e.body[3..5] == ToBE(|name|, 2) && e.body[5..5 + |name|] == name
  }

  ghost predicate NoServerName(es: seq<Extension>) {
    forall i :: 0 <= i < |es| ==> es[i].kind != 0
  }

  // ---- when a message is complete -----------------------------------------

  /** Complete means: a message of type 1 whose 24-bit length is there to the last byte. */
  lemma CompleteExactly(s: bytes)
    ensures ClientHelloComplete(s)
       <==> exists body, more :: |body| < 0x100_0000 && s == [0x01] + ToBE(|body|, 3) + body + more
  {
    if |s| >= 4 {
      BEBound(s[1..4]);
      ToBERoundTrip(s[1..4]);
      PowerValues();
      var n := BE(s[1..4]);
      hide ToBE, BE;
      CompleteWhen(s, n);
      if s[0] == 0x01 && |s| >= 4 + n {
        var body, more := s[4..4 + n], s[4 + n..];
        assert s == [0x01] + ToBE(|body|, 3) + body + more;
      }
    }
    if body, more :| |body| < 0x100_0000 && s == [0x01] + ToBE(|body|, 3) + body + more {
      hide ToBE, BE;
      assert s[1..4] == ToBE(|body|, 3);
      CompleteWhen(s, |body|);
    }
  }

  /** A message whose length field says n. */
  lemma CompleteWhen(s: bytes, n: nat)
    requires |s| >= 4 && n < 0x100_0000 && s[1..4] == ToBE(n, 3)
    ensures ClientHelloComplete(s) <==> s[0] == 0x01 && |s| >= 4 + n
  {
    PowerValues();
    BERoundTrip(n, 3);
    BEThree(s[1..4]);
  }

  lemma BEThree(b: bytes)
    requires |b| == 3
    ensures BE(b) == 0x1_0000 * (b[0] as int) + 0x100 * (b[1] as int) + b[2] as int
  {
    assert b[..2][..1][..0] == [];
    assert b[..2][..1] == [b[0]];
    assert BE(b[..2][..1]) == b[0];
    assert BE(b[..2]) == 256 * (b[0] as int) + b[1] as int;
  }

  /** As long as a byte of the message is missing it is not complete; from its last byte on it is. */
  lemma CompleteAtTheEnd(body: bytes, more: bytes, k: nat)
    requires |body| < 0x100_0000 && k < 4 + |body|
    ensures var m := [0x01] + ToBE(|body|, 3) + body; ClientHelloComplete(m + more) && !ClientHelloComplete(m[..k])
  {
    var m := [0x01] + ToBE(|body|, 3) + body;
    HeadKept(body, more, k);
    hide ToBE, ClientHelloComplete;
    CompleteWhen(m + more, |body|);
    if k >= 4 {
      CompleteWhen(m[..k], |body|);
    } else {
      TooShort(m[..k]);
    }
  }

  lemma HeadKept(body: bytes, more: bytes, k: nat)
    requires k <= 4 + |body|
    ensures var m := [0x01] + ToBE(|body|, 3) + body;
      |m| == 4 + |body| && (m + more)[0] == 0x01 && (m + more)[1..4] == ToBE(|body|, 3)
      && (k >= 4 ==> m[..k][1..4] == ToBE(|body|, 3))
  {
    hide ToBE;
  }

  lemma TooShort(s: bytes)
    requires |s| < 4
    ensures !ClientHelloComplete(s)
  {
  }

  // ---- fields -------------------------------------------------------------

  /** These bytes stand at this place. */
  ghost predicate Stands(d: bytes, at: nat, p: bytes) {
    at + |p| <= |d| && d[at..at + |p|] == p
  }

  lemma StandsByParts(d: bytes, at: nat, p: bytes, q: bytes)
    ensures Stands(d, at, p + q) <==> Stands(d, at, p) && Stands(d, at + |p|, q)
  {
    if Stands(d, at, p + q) {
      assert d[at..at + |p + q|][..|p|] == d[at..at + |p|] && (p + q)[..|p|] == p;
      assert d[at..at + |p + q|][|p|..] == d[at + |p|..at + |p| + |q|] && (p + q)[|p|..] == q;
    }
    if Stands(d, at, p) && Stands(d, at + |p|, q) {
      assert d[at..at + |p + q|] == d[at..at + |p|] + d[at + |p|..at + |p| + |q|];
    }
  }

  lemma StandsWithin(d: bytes, at: nat, p: bytes, i: nat, j: nat)
    requires Stands(d, at, p) && i <= j <= |p|
    ensures Stands(d, at + i, p[i..j])
  {
    assert p == p[..i] + (p[i..j] + p[j..]);
    StandsByParts(d, at, p[..i], p[i..j] + p[j..]);
    StandsByParts(d, at + i, p[i..j], p[j..]);
  }

  /** A 16-bit length is read where it was written. */
  lemma LengthAt(d: bytes, at: nat, n: nat)
    requires n < 0x1_0000 && Stands(d, at, ToBE(n, 2))
    ensures U16(d, at) == n
  {
    assert ToBE(n, 2) == [n / 256 % 256, n % 256];
    assert d[at] == d[at..at + 2][0] && d[at + 1] == d[at..at + 2][1];
  }

  lemma OneExtension(d: bytes, at: nat, e: Extension)
    requires e.kind < 0x1_0000 && |e.body| < 0x1_0000 && Stands(d, at, PrintExtension(e))
    ensures at + 4 + |e.body| <= |d|
    ensures U16(d, at) == e.kind && U16(d, at + 2) == |e.body| && Stands(d, at + 4, e.body)
  {
    hide ToBE;
    StandsByParts(d, at, ToBE(e.kind, 2) + ToBE(|e.body|, 2), e.body);
    StandsByParts(d, at, ToBE(e.kind, 2), ToBE(|e.body|, 2));
    LengthAt(d, at, e.kind);
    LengthAt(d, at + 2, |e.body|);
  }

  lemma NameAt(d: bytes, at: nat, e: Extension, name: bytes)
    requires Stands(d, at, e.body) && Names(e, name)
    ensures at + 5 + |name| <= |d| && U16(d, at + 3) == |name| && Stands(d, at + 5, name)
  {
    hide ToBE;
    StandsWithin(d, at, e.body, 3, 5);
    StandsWithin(d, at, e.body, 5, 5 + |name|);
    LengthAt(d, at + 3, |name|);
  }

  lemma {:induction false} ExtensionsJoin(a: seq<Extension>, b: seq<Extension>)
    ensures PrintExtensions(a + b) == PrintExtensions(a) + PrintExtensions(b)
  {
    hide PrintExtension;
    if a == [] {
      assert a + b == b;
    } else {
      ExtensionsJoin(a[1..], b);
      assert (a + b)[0] == a[0] && (a + b)[1..] == a[1..] + b;
    }
  }

  // ---- the walk of sniHostNameRange ---------------------------------------

  /** Extensions of other kinds are passed over. */
  lemma {:induction false} PassesOver(d: bytes, at: nat, end: nat, es: seq<Extension>)
    requires ValidExtensions(es) && NoServerName(es)
    requires at + |PrintExtensions(es)| <= end <= |d| && Stands(d, at, PrintExtensions(es))
    ensures SniInExtensions(d, at, end) == SniInExtensions(d, at + |PrintExtensions(es)|, end)
    decreases |es|
  {
    hide U16, PrintExtension, Stands;
    if es != [] {
      var p, q := PrintExtension(es[0]), PrintExtensions(es[1..]);
      ExtensionSize(es[0]);
      StandsByParts(d, at, p, q);
      OneExtension(d, at, es[0]);
      PassesOver(d, at + |p|, end, es[1..]);
    }
  }

  lemma ExtensionSize(e: Extension)
    ensures |PrintExtension(e)| == 4 + |e.body|
  {
  }

  /** The fields of a written ClientHello stand one behind the other. */
  lemma FieldsStand(h: Hello, d: bytes, at: nat)
    requires ValidHello(h) && Stands(d, at, PrintHello(h))
    ensures var o1 := at + 39 + |h.session|;
      var o2 := o1 + 2 + |h.suites|;
      var o3 := o2 + 1 + |h.compression|;
      && o3 == at + 4 + |Front(h)|
      && Stands(d, at, [0x01])
      && Stands(d, at + 38, [|h.session|]) && Stands(d, o1, ToBE(|h.suites|, 2)) && Stands(d, o2, [|h.compression|])
      && Stands(d, o3, ToBE(|PrintExtensions(h.extensions)|, 2)) && Stands(d, o3 + 2, PrintExtensions(h.extensions))
  {
    hide ToBE, PrintExtensions, Stands;
    var l, es := ToBE(|PrintExtensions(h.extensions)|, 2), PrintExtensions(h.extensions);
    var a, b := h.version + h.random, [|h.session|];
    StandsByParts(d, at, [0x01] + ToBE(|Body(h)|, 3), Body(h));
    StandsByParts(d, at, [0x01], ToBE(|Body(h)|, 3));
    StandsByParts(d, at + 4, Front(h) + l, es);
    StandsByParts(d, at + 4, Front(h), l);
    FrontStands(h, d, at + 4);
  }

  lemma FrontStands(h: Hello, d: bytes, at: nat)
    requires ValidHello(h) && Stands(d, at, Front(h))
    ensures var o1 := at + 35 + |h.session|;
      var o2 := o1 + 2 + |h.suites|;
      && o2 + 1 + |h.compression| == at + |Front(h)|
      && Stands(d, at + 34, [|h.session|]) && Stands(d, o1, ToBE(|h.suites|, 2)) && Stands(d, o2, [|h.compression|])
  {
    hide ToBE, Stands;
    var a := h.version + h.random;
    var b := a + [|h.session|];
    var e := b + h.session;
    var f := e + ToBE(|h.suites|, 2);
    var g := f + h.suites;
    var k := g + [|h.compression|];
    assert Front(h) == k + h.compression;
    StandsByParts(d, at, k, h.compression);
    StandsByParts(d, at, g, [|h.compression|]);
    StandsByParts(d, at, f, h.suites);
    StandsByParts(d, at, e, ToBE(|h.suites|, 2));
    StandsByParts(d, at, b, h.session);
    StandsByParts(d, at, a, [|h.session|]);
  }

  lemma ByteAt(d: bytes, at: nat, b: byte)
    requires Stands(d, at, [b])
    ensures at < |d| && d[at] == b
  {
    assert d[at..at + 1][0] == b;
  }

  /** Where the list of a written ClientHello stands. */
  lemma ListFound(h: Hello, more: bytes)
    requires ValidHello(h)
    ensures var d, at := PrintHello(h) + more, 6 + |Front(h)|;
      && ExtensionsRange(d) == Some(Range(at, |PrintExtensions(h.extensions)|))
      && at + |PrintExtensions(h.extensions)| <= |d| && Stands(d, at, PrintExtensions(h.extensions))
  {
    hide ToBE, PrintExtensions, PrintHello, Front, U16, Stands, ExtensionsRange;
    var d := PrintHello(h) + more;
    StandsFirst(PrintHello(h), more);
    FieldsStand(h, d, 0);
    StandsInside(d, 0, [0x01]);
    StandsInside(d, 38, [|h.session|]);
    var o1 := 39 + |h.session|;
    var o2 := o1 + 2 + |h.suites|;
    var o3 := o2 + 1 + |h.compression|;
    StandsInside(d, o1, ToBE(|h.suites|, 2));
    StandsInside(d, o3, ToBE(|PrintExtensions(h.extensions)|, 2));
    StandsInside(d, o3 + 2, PrintExtensions(h.extensions));
    ByteAt(d, 0, 0x01);
    ByteAt(d, 38, |h.session|);
    LengthAt(d, o1, |h.suites|);
    ByteAt(d, o2, |h.compression|);
    LengthAt(d, o3, |PrintExtensions(h.extensions)|);
    ListByFields(d, |h.session|, |h.suites|, |h.compression|, |PrintExtensions(h.extensions)|);
  }

  lemma StandsFirst(p: bytes, more: bytes)
    ensures Stands(p + more, 0, p)
  {
  }

  lemma StandsInside(d: bytes, at: nat, p: bytes)
    requires Stands(d, at, p)
    ensures at + |p| <= |d|
  {
  }

  lemma ListByFields(d: bytes, session: nat, suites: nat, compression: nat, n: nat)
    requires |d| > 38 && d[0] == 0x01 && d[38] == session
    requires 39 + session + 2 <= |d| && U16(d, 39 + session) == suites
    requires 41 + session + suites < |d| && d[41 + session + suites] == compression
    requires 44 + session + suites + compression + n <= |d| && U16(d, 42 + session + suites + compression) == n
    ensures ExtensionsRange(d) == Some(Range(44 + session + suites + compression, n))
  {
    hide U16;
  }

  /**
   * The host name is found: in any written ClientHello, with anything behind it, in which extensions of other kinds stand
   * in front of a server_name with a non-empty name, and anything behind, the range found is that name.
   */
  lemma NameFound(h: Hello, before: seq<Extension>, e: Extension, after: seq<Extension>, name: bytes, more: bytes)
    requires ValidHello(h) && h.extensions == before + [e] + after
    requires NoServerName(before) && Names(e, name) && name != []
    ensures var d := PrintHello(h) + more;
      && SniHostNameRange(d) == Some(Range(6 + |Front(h)| + |PrintExtensions(before)| + 9, |name|))
      && var r := SniHostNameRange(d).value;
      && d[r.offset..r.offset + r.length] == name
  {
    hide ToBE, U16, ExtensionsRange, SniInExtensions, Front, PrintHello, Stands;
    var d, at := PrintHello(h) + more, 6 + |Front(h)|;
    ListFound(h, more);
    var p, q, r := PrintExtensions(before), PrintExtension(e), PrintExtensions(after);
    ListOfThree(before, e, after);
    StandsByParts(d, at, p + q, r);
    StandsByParts(d, at, p, q);
    PassesOver(d, at, at + |PrintExtensions(h.extensions)|, before);
    NameHere(d, at + |p|, at + |PrintExtensions(h.extensions)|, e, name);
  }

  lemma ListOfThree(before: seq<Extension>, e: Extension, after: seq<Extension>)
    requires ValidExtensions(before + [e] + after)
    ensures PrintExtensions(before + [e] + after) == PrintExtensions(before) + PrintExtension(e) + PrintExtensions(after)
    ensures ValidExtensions(before) && ValidExtensions(after) && e.kind < 0x1_0000 && |e.body| < 0x1_0000
  {
    hide PrintExtension;
    var all := before + [e] + after;
    assert all[|before|] == e;
    assert forall i :: 0 <= i < |before| ==> all[i] == before[i];
    assert forall i :: 0 <= i < |after| ==> all[|before| + 1 + i] == after[i];
    ExtensionsJoin(before + [e], after);
    ExtensionsJoin(before, [e]);
    assert [e][1..] == [];
    assert PrintExtensions([e]) == PrintExtension(e) + [];
  }

  lemma NameHere(d: bytes, at: nat, end: nat, e: Extension, name: bytes)
    requires e.kind < 0x1_0000 && |e.body| < 0x1_0000 && Names(e, name) && name != []
    requires at + |PrintExtension(e)| <= end <= |d| && Stands(d, at, PrintExtension(e))
    ensures SniInExtensions(d, at, end) == Some(Range(at + 9, |name|)) && at + 9 + |name| <= |d| && d[at + 9..at + 9 + |name|] == name
  {
    hide U16, ToBE, PrintExtension;
    ExtensionSize(e);
    OneExtension(d, at, e);
    NameAt(d, at + 4, e, name);
  }

  /** Without a server_name extension no name is found. */
  lemma NoNameFound(h: Hello, more: bytes)
    requires ValidHello(h) && NoServerName(h.extensions)
    ensures SniHostNameRange(PrintHello(h) + more).None?
  {
    hide ToBE, U16, ExtensionsRange, Front, PrintHello, Stands;
    ListFound(h, more);
    var at, n := 6 + |Front(h)|, |PrintExtensions(h.extensions)|;
    PassesOver(PrintHello(h) + more, at, at + n, h.extensions);
  }

  /** The cut is in the middle of the name: the part in front of it is half of the name, rounded down. */
  lemma CutInTheMiddle(stream: bytes)
    ensures SplitAt(stream).Some? <==> SniHostNameRange(stream).Some? && SniHostNameRange(stream).value.length >= 2
    ensures SplitAt(stream).Some? ==>
      var name, front := SniHostNameRange(stream).value, SplitAt(stream).value - SniHostNameRange(stream).value.offset;
      2 * front <= name.length <= 2 * front + 1
  {
    hide SniHostNameRange;
  }

  /**
   * So a client's Initial is split in its host name: a payload whose CRYPTO frames carry a written ClientHello, in any
   * pieces that agree and leave no hole, with a name of two bytes or more, is split with half of that name on each side.
   */
  lemma HelloIsSplit(plaintext: bytes, h: Hello, before: seq<Extension>, e: Extension, after: seq<Extension>, name: bytes, more: bytes)
    requires ValidHello(h) && h.extensions == before + [e] + after && NoServerName(before) && Names(e, name) && |name| >= 2
    requires Frames(plaintext).Some?
    requires var segs := CryptoSegments(Frames(plaintext).value);
      segs != [] && MaxEnd(segs) <= |plaintext| && WholeStream(segs) == Some(PrintHello(h) + more)
    ensures SplitInitialCryptoFrames(plaintext).Some?
    ensures var d := PrintHello(h) + more;
      var k := 6 + |Front(h)| + |PrintExtensions(before)| + 9 + |name| / 2;
      && k < |d|
      && SplitInitialCryptoFrames(plaintext).value.second == BuildCryptoFrame(k, d[k..])
      && name[|name| / 2..] <= d[k..]
  {
    hide Frames, WholeStream, CryptoSegments, OtherFrames, BuildCryptoFrame, MaxEnd, PrintHello, Front, PrintExtensions,
      SniHostNameRange, SplitInitialCryptoFrames, NoHole, Consistent;
    NameFound(h, before, e, after, name, more);
    WholeStreamExists(CryptoSegments(Frames(plaintext).value));
    SplitsExactly(plaintext);
    var fs, stream, k := SplitParts(plaintext);
    CutInTheMiddle(stream);
    var r := SniHostNameRange(stream).value;
    assert stream[r.offset..r.offset + r.length][|name| / 2..] == stream[k..r.offset + r.length];
  }

  // ---- the walk of GetSNI, in a TLS record --------------------------------

  /** A handshake record of TLS 1.0 to 1.3 around the message. */
  function PrintRecord(minor: byte, h: Hello): (b: bytes)
    requires |h.session| < 256 && |h.compression| < 256
  {
    [0x16, 0x03, minor] + ToBE(|PrintHello(h)|, 2) + PrintHello(h)
  }

  /** Some extension is encrypted_client_hello (RFC 9849). */
  ghost predicate HasEch(es: seq<Extension>) {
    exists i :: 0 <= i < |es| && es[i].kind == 65037
  }

  lemma {:induction false} RecordPassesOver(d: bytes, at: nat, end: nat, es: seq<Extension>, ech: bool)
    requires ValidExtensions(es) && NoServerName(es)
    requires at + |PrintExtensions(es)| <= end <= |d| && Stands(d, at, PrintExtensions(es))
    ensures SniFrom(d, at, end, ech) == SniFrom(d, at + |PrintExtensions(es)|, end, ech || HasEch(es))
    decreases |es|
  {
    hide U16, PrintExtension, Stands;
    if es != [] {
      var p, q := PrintExtension(es[0]), PrintExtensions(es[1..]);
      ExtensionSize(es[0]);
      StandsByParts(d, at, p, q);
      OneExtension(d, at, es[0]);
      RecordPassesOver(d, at + |p|, end, es[1..], ech || es[0].kind == 65037);
      EchCons(es);
    }
  }

  lemma EchCons(es: seq<Extension>)
    requires es != []
    ensures HasEch(es) <==> es[0].kind == 65037 || HasEch(es[1..])
  {
    if HasEch(es) {
      var i :| 0 <= i < |es| && es[i].kind == 65037;
      assert i > 0 ==> es[1..][i - 1] == es[i];
    }
    if HasEch(es[1..]) {
      var i :| 0 <= i < |es[1..]| && es[1..][i].kind == 65037;
      assert es[i + 1] == es[1..][i];
    }
  }

  /** Where the list of a written record stands. */
  lemma RecordListFound(minor: byte, h: Hello, more: bytes)
    requires ValidHello(h) && minor < 8 && |PrintHello(h)| < 0x1_0000 && h.extensions != []
    ensures var d, at := PrintRecord(minor, h) + more, 11 + |Front(h)|;
      && Extensions(d) == Some((at, at + |PrintExtensions(h.extensions)|))
      && at + |PrintExtensions(h.extensions)| <= |d| && Stands(d, at, PrintExtensions(h.extensions))
  {
    hide *;
    ListSizes(h);
    var d := PrintRecord(minor, h) + more;
    ListSize(h.extensions);
    RecordStands(minor, h, more);
    FieldsStand(h, d, 5);
    RecordFields(d, h);
  }

  lemma ListSizes(h: Hello)
    requires ValidHello(h)
    ensures |h.session| < 256 && |h.suites| < 0x1_0000 && |h.compression| < 256 && |PrintExtensions(h.extensions)| < 0x1_0000
  {
    hide PrintExtensions;
  }

  lemma RecordStands(minor: byte, h: Hello, more: bytes)
    requires |h.session| < 256 && |h.compression| < 256 && minor < 8 && |PrintHello(h)| < 0x1_0000
    ensures var d := PrintRecord(minor, h) + more;
      && Stands(d, 5, PrintHello(h)) && |d| >= 5 + |PrintHello(h)| && U16(d, 3) == |PrintHello(h)|
      && d[0] == 0x16 && d[1] == 0x03 && d[2] == minor
  {
    hide ToBE, PrintHello, U16, Stands;
    var d := PrintRecord(minor, h) + more;
    var head, l := [0x16, 0x03, minor], ToBE(|PrintHello(h)|, 2);
    StandsFirst(PrintRecord(minor, h), more);
    StandsByParts(d, 0, head + l, PrintHello(h));
    StandsByParts(d, 0, head, l);
    StandsInside(d, 3, l);
    LengthAt(d, 3, |PrintHello(h)|);
    HeadOfRecord(d, head);
    StandsInside(d, 5, PrintHello(h));
  }

  lemma RecordFields(d: bytes, h: Hello)
    requires |d| >= 5 && d[0] == 0x16 && d[1] == 0x03 && d[2] < 8 && U16(d, 3) <= |d|
    requires |h.suites| < 0x1_0000 && |h.session| < 256 && |h.compression| < 256 && 4 <= |PrintExtensions(h.extensions)| < 0x1_0000
    requires var o1 := 44 + |h.session|;
      var o2 := o1 + 2 + |h.suites|;
      var o3 := o2 + 1 + |h.compression|;
      && o3 == 9 + |Front(h)|
      && Stands(d, 43, [|h.session|]) && Stands(d, o1, ToBE(|h.suites|, 2)) && Stands(d, o2, [|h.compression|])
      && Stands(d, o3, ToBE(|PrintExtensions(h.extensions)|, 2)) && Stands(d, o3 + 2, PrintExtensions(h.extensions))
    ensures var at := 11 + |Front(h)|;
      && Extensions(d) == Some((at, at + |PrintExtensions(h.extensions)|))
      && at + |PrintExtensions(h.extensions)| <= |d| && Stands(d, at, PrintExtensions(h.extensions))
  {
    hide ToBE, PrintExtensions, Front, U16, Stands, Extensions;
    var o1 := 44 + |h.session|;
    var o2 := o1 + 2 + |h.suites|;
    var o3 := o2 + 1 + |h.compression|;
    StandsInside(d, 43, [|h.session|]);
    StandsInside(d, o1, ToBE(|h.suites|, 2));
    StandsInside(d, o2, [|h.compression|]);
    StandsInside(d, o3, ToBE(|PrintExtensions(h.extensions)|, 2));
    StandsInside(d, o3 + 2, PrintExtensions(h.extensions));
    ByteAt(d, 43, |h.session|);
    LengthAt(d, o1, |h.suites|);
    ByteAt(d, o2, |h.compression|);
    LengthAt(d, o3, |PrintExtensions(h.extensions)|);
    RecordListByFields(d, |h.session|, |h.suites|, |h.compression|, |PrintExtensions(h.extensions)|);
  }

  lemma ListSize(es: seq<Extension>)
    requires es != []
    ensures |PrintExtensions(es)| >= 4
  {
    ExtensionSize(es[0]);
    hide PrintExtension;
  }

  lemma HeadOfRecord(d: bytes, head: bytes)
    requires Stands(d, 0, head) && |head| == 3
    ensures |d| >= 3 && d[0] == head[0] && d[1] == head[1] && d[2] == head[2]
  {
    assert d[..3] == d[0..3] == head;
  }

  lemma RecordListByFields(d: bytes, session: nat, suites: nat, compression: nat, n: nat)
    requires |d| >= 44 && d[0] == 0x16 && d[1] == 0x03 && d[2] < 8 && U16(d, 3) <= |d|
    requires d[43] == session && 44 + session + 2 <= |d| && U16(d, 44 + session) == suites
    requires 46 + session + suites < |d| && d[46 + session + suites] == compression
    requires n >= 4 && 49 + session + suites + compression + n <= |d| && U16(d, 47 + session + suites + compression) == n
    ensures Extensions(d) == Some((49 + session + suites + compression, 49 + session + suites + compression + n))
  {
    hide U16;
  }

  /**
   * The host name in a record: with extensions of other kinds in front it is found at its place if at least one byte
   * follows it, and not at all if it is the last thing there is; either way ECH is reported if it stood in front.
   */
  lemma RecordNameFound(minor: byte, h: Hello, before: seq<Extension>, e: Extension, after: seq<Extension>, name: bytes, more: bytes)
    requires ValidHello(h) && minor < 8 && |PrintHello(h)| < 0x1_0000 && h.extensions == before + [e] + after
    requires NoServerName(before) && Names(e, name)
    ensures var d := PrintRecord(minor, h) + more;
      var offset := 11 + |Front(h)| + |PrintExtensions(before)| + 9;
      && offset + |name| <= |d|
      && GetSNI(d) == (if offset + |name| < |d| then Sni(offset, |name|, HasEch(before)) else Sni(0, 0, HasEch(before)))
      && d[offset..offset + |name|] == name
  {
    hide ToBE, U16, Extensions, SniFrom, Front, PrintHello, Stands, PrintRecord;
    var d, at := PrintRecord(minor, h) + more, 11 + |Front(h)|;
    RecordListFound(minor, h, more);
    var p, q, r := PrintExtensions(before), PrintExtension(e), PrintExtensions(after);
    ListOfThree(before, e, after);
    StandsByParts(d, at, p + q, r);
    StandsByParts(d, at, p, q);
    RecordPassesOver(d, at, at + |PrintExtensions(h.extensions)|, before, false);
    RecordNameHere(d, at + |p|, at + |PrintExtensions(h.extensions)|, e, name, HasEch(before));
  }

  lemma RecordNameHere(d: bytes, at: nat, end: nat, e: Extension, name: bytes, ech: bool)
    requires e.kind < 0x1_0000 && |e.body| < 0x1_0000 && Names(e, name)
    requires at + |PrintExtension(e)| <= end <= |d| && Stands(d, at, PrintExtension(e))
    ensures at + 9 + |name| <= |d| && d[at + 9..at + 9 + |name|] == name
    ensures SniFrom(d, at, end, ech) == if at + 9 + |name| < |d| then Sni(at + 9, |name|, ech) else Sni(0, 0, ech)
  {
    hide U16, ToBE, PrintExtension;
    ExtensionSize(e);
    OneExtension(d, at, e);
    NameAt(d, at + 4, e, name);
  }

  /** Without a server_name extension none is found; ECH is reported if it is there. */
  lemma RecordNoName(minor: byte, h: Hello, more: bytes)
    requires ValidHello(h) && minor < 8 && |PrintHello(h)| < 0x1_0000 && h.extensions != [] && NoServerName(h.extensions)
    ensures GetSNI(PrintRecord(minor, h) + more) == Sni(0, 0, HasEch(h.extensions))
  {
    hide ToBE, U16, Extensions, Front, PrintHello, Stands, PrintRecord;
    RecordListFound(minor, h, more);
    var at, n := 11 + |Front(h)|, |PrintExtensions(h.extensions)|;
    RecordPassesOver(PrintRecord(minor, h) + more, at, at + n, h.extensions, false);
  }
}
