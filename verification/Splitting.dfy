/** Splitting the client's first Initial: splitInitialCryptoFrames and what it preserves. */
module Splitting {
  import opened Bytes
  import opened Varint
  import opened Framing
  import opened Reassembly
  import opened ClientHello

  function BuildCryptoFrame(offset: nat, data: bytes): (f: bytes)
    ensures |f| > 0 && f[0] == 0x06
  {
    [0x06] + WriteVarint(offset) + WriteVarint(|data|) + data
  }

  /** The frames that are neither PADDING nor CRYPTO, in order. */
  function OtherFrames(fs: seq<bytes>): (os: seq<bytes>)
    requires forall i :: 0 <= i < |fs| ==> Whole(fs[i])
    ensures forall i :: 0 <= i < |os| ==> Whole(os[i]) && os[i][0] != 0x00 && os[i][0] != 0x06
  {
    if fs == [] then []
    else
      FirstByte(fs[0]);
      (if fs[0][0] != 0x00 && fs[0][0] != 0x06 then [fs[0]] else []) + OtherFrames(fs[1..])
  }

  /** These, in this order, among those. */
  ghost predicate Among(os: seq<bytes>, fs: seq<bytes>)
    decreases |fs|
  {
    os == [] || (fs != [] && ((os[0] == fs[0] && Among(os[1..], fs[1..])) || Among(os, fs[1..])))
  }

  /** Every frame but PADDING and CRYPTO is kept as often as it is there, and in order; those two are not. */
  lemma {:induction false} OthersKept(fs: seq<bytes>, f: bytes)
    requires forall i :: 0 <= i < |fs| ==> Whole(fs[i])
    requires f != []
    ensures multiset(OtherFrames(fs))[f] == if f[0] == 0x00 || f[0] == 0x06 then 0 else multiset(fs)[f]
    ensures Among(OtherFrames(fs), fs)
  {
    hide Whole;
    if fs != [] {
      FirstByte(fs[0]);
      OthersKept(fs[1..], f);
      var os := OtherFrames(fs[1..]);
      hide OtherFrames, Among;
      CountFirst(fs, f);
      OneMore(fs);
      if fs[0][0] != 0x00 && fs[0][0] != 0x06 {
        CountFirst([fs[0]] + os, f);
        assert ([fs[0]] + os)[1..] == os;
      }
      AmongOneMore(os, fs);
    }
  }

  lemma CountFirst(fs: seq<bytes>, f: bytes)
    requires fs != []
    ensures multiset(fs)[f] == multiset(fs[1..])[f] + if fs[0] == f then 1 else 0
  {
    assert fs == [fs[0]] + fs[1..];
  }

  lemma OneMore(fs: seq<bytes>)
    requires fs != [] && fs[0] != [] && forall i :: 0 <= i < |fs| ==> Whole(fs[i])
    ensures var os := OtherFrames(fs[1..]);
      OtherFrames(fs) == if fs[0][0] != 0x00 && fs[0][0] != 0x06 then [fs[0]] + os else os
  {
    hide Whole;
  }

  lemma AmongOneMore(os: seq<bytes>, fs: seq<bytes>)
    requires fs != [] && Among(os, fs[1..])
    ensures Among(os, fs) && Among([fs[0]] + os, fs)
  {
    assert ([fs[0]] + os)[1..] == os;
  }

  /** No frame runs to the end of the packet; so for every payload made of the frames section 12.4 of RFC 9000 allows in Initial packets. */
  ghost predicate Closed(fs: seq<bytes>) {
    forall i :: 0 <= i < |fs| ==> Whole(fs[i]) && !OpenEnded(fs[i][0])
  }

  function Blank(n: nat): (b: Buffer)
    ensures Sound(b)
  {
    Buffer(Zeros(n), seq(n, _ => false))
  }

  function AllSeen(n: nat): (s: seq<bool>)
    ensures |s| == n && forall i :: 0 <= i < n ==> s[i]
  {
    seq(n, _ => true)
  }

  function SplitAt(stream: bytes): (k: Option<nat>)
    ensures k.Some? ==> 0 < k.value < |stream|
  {
    match SniHostNameRange(stream)
    case None => None
    case Some(sni) => if sni.length <= 1 then None else Some(sni.offset + sni.length / 2)
  }

  /** The whole CRYPTO stream of a payload, if its segments agree and leave no hole. */
  function WholeStream(segs: seq<Segment>): (s: Option<bytes>)
  {
    var r := MergeSegments(Blank(MaxEnd(segs)), segs);
    if !r.ok then None
    else if exists i :: 0 <= i < |r.buffer.covered| && !r.buffer.covered[i] then None
    else Some(r.buffer.stream)
  }

  datatype Fragments = Fragments(first: bytes, second: bytes)

  function SplitInitialCryptoFrames(plaintext: bytes): (r: Option<Fragments>)
  {
    match Frames(plaintext)
    case None => None
    case Some(fs) =>
      var segs := CryptoSegments(fs);
      if segs == [] || MaxEnd(segs) > |plaintext| then None
      else
        match WholeStream(segs)
        case None => None
        case Some(stream) =>
          match SplitAt(stream)
          case None => None
          case Some(k) =>
            Some(Fragments(Concat(OtherFrames(fs)) + BuildCryptoFrame(0, stream[..k]),
                           BuildCryptoFrame(k, stream[k..])))
  }

  // ---- frames of the fragments --------------------------------------------

  function PadFrames(n: nat): (fs: seq<bytes>)
    ensures |fs| == n
  {
    seq(n, _ => [0x00])
  }

  lemma {:induction false} PadFramesAreZeros(n: nat)
    ensures Concat(PadFrames(n)) == Zeros(n)
    ensures forall i :: 0 <= i < n ==> Whole(PadFrames(n)[i])
    ensures CryptoSegments(PadFrames(n)) == [] && OtherFrames(PadFrames(n)) == []
  {
    if n > 0 {
      PadFramesAreZeros(n - 1);
      assert PadFrames(n)[1..] == PadFrames(n - 1);
      assert Zeros(n) == [0] + Zeros(n - 1);
    }
  }

  /** A built CRYPTO frame is whole and carries its data at its offset. */
  lemma BuiltFrame(offset: nat, data: bytes)
    requires offset < MAX_VARINT && |data| < MAX_VARINT
    ensures Whole(BuildCryptoFrame(offset, data))
    ensures SegmentOf(BuildCryptoFrame(offset, data)) == Segment(offset, data)
  {
    hide VarintAt, WriteVarint, VarintLen;
    var f := BuildCryptoFrame(offset, data);
    TwoVarintsWritten([0x06], offset, |data|, data);
    assert f == [0x06] + WriteVarint(offset) + WriteVarint(|data|) + data;
    var at := 1 + VarintLen(offset) + VarintLen(|data|);
    assert VarintAt(f, 1) == Some(At(offset, 1 + VarintLen(offset)));
    assert f[at..] == data;
  }

  lemma {:induction false} CryptoSegmentsAppend(a: seq<bytes>, b: seq<bytes>)
    requires forall i :: 0 <= i < |a| ==> Whole(a[i])
    requires forall i :: 0 <= i < |b| ==> Whole(b[i])
    ensures forall i :: 0 <= i < |a + b| ==> Whole((a + b)[i])
    ensures CryptoSegments(a + b) == CryptoSegments(a) + CryptoSegments(b)
  {
    hide Whole, SegmentOf;
    if a == [] {
      assert a + b == b;
    } else {
      CryptoSegmentsAppend(a[1..], b);
      assert (a + b)[0] == a[0] && (a + b)[1..] == a[1..] + b;
      var own := if IsCrypto(a[0]) then [SegmentOf(a[0])] else [];
      assert CryptoSegments(a + b) == own + CryptoSegments(a[1..] + b);
      assert CryptoSegments(a) == own + CryptoSegments(a[1..]);
      assert own + (CryptoSegments(a[1..]) + CryptoSegments(b)) == own + CryptoSegments(a[1..]) + CryptoSegments(b);
    }
  }

  lemma {:induction false} OtherFramesAppend(a: seq<bytes>, b: seq<bytes>)
    requires forall i :: 0 <= i < |a| ==> Whole(a[i])
    requires forall i :: 0 <= i < |b| ==> Whole(b[i])
    ensures forall i :: 0 <= i < |a + b| ==> Whole((a + b)[i])
    ensures OtherFrames(a + b) == OtherFrames(a) + OtherFrames(b)
  {
    hide Whole;
    if a == [] {
      assert a + b == b;
    } else {
      OtherFramesAppend(a[1..], b);
      FirstByte(a[0]);
      assert (a + b)[0] == a[0] && (a + b)[1..] == a[1..] + b;
      var own := if a[0][0] != 0x00 && a[0][0] != 0x06 then [a[0]] else [];
      assert OtherFrames(a + b) == own + OtherFrames(a[1..] + b);
      assert OtherFrames(a) == own + OtherFrames(a[1..]);
      assert own + (OtherFrames(a[1..]) + OtherFrames(b)) == own + OtherFrames(a[1..]) + OtherFrames(b);
    }
  }

  lemma {:induction false} OthersOfOthers(fs: seq<bytes>)
    requires forall i :: 0 <= i < |fs| ==> Whole(fs[i])
    ensures OtherFrames(OtherFrames(fs)) == OtherFrames(fs) && CryptoSegments(OtherFrames(fs)) == []
    ensures forall f :: f in OtherFrames(fs) ==> f in fs
  {
    hide Whole, SegmentOf;
    if fs != [] {
      OthersOfOthers(fs[1..]);
      FirstByte(fs[0]);
      assert fs == [fs[0]] + fs[1..];
      var rest := OtherFrames(fs[1..]);
      assert [fs[0]] + rest == [fs[0]] + rest;
      if fs[0][0] != 0x00 && fs[0][0] != 0x06 {
        assert ([fs[0]] + rest)[1..] == rest;
      } else {
        assert [] + rest == rest;
      }
    }
  }

  /** Frames, then one built CRYPTO frame, then zero padding: what such a payload parses to. */
  lemma PaddedPayload(os: seq<bytes>, offset: nat, data: bytes, padding: nat)
    requires Closed(os)
    requires offset < MAX_VARINT && |data| < MAX_VARINT
    ensures var p := Concat(os) + BuildCryptoFrame(offset, data) + Zeros(padding);
      var fs := os + [BuildCryptoFrame(offset, data)] + PadFrames(padding);
      && Frames(p) == Some(fs)
      && (forall i :: 0 <= i < |fs| ==> Whole(fs[i]))
      && CryptoSegments(fs) == CryptoSegments(os) + [Segment(offset, data)]
      && OtherFrames(fs) == OtherFrames(os)
  {
    var c := BuildCryptoFrame(offset, data);
    BuiltFrame(offset, data);
    PadFramesAreZeros(padding);
    OneCrypto(c);
    ThreeFramed(os, c, padding);
    hide Whole, SegmentOf, BuildCryptoFrame, Frames, Zeros, Concat, CryptoSegments, OtherFrames, WellFramed, PadFrames, Closed;
    var pads := PadFrames(padding);
    var fs := os + [c] + pads;
    FramesOfConcat(fs);
    ConcatAppend(os + [c], pads);
    ConcatAppend(os, [c]);
    CryptoSegmentsAppend(os + [c], pads);
    CryptoSegmentsAppend(os, [c]);
    OtherFramesAppend(os + [c], pads);
    OtherFramesAppend(os, [c]);
  }

  lemma OneCrypto(c: bytes)
    requires Whole(c) && IsCrypto(c)
    ensures Concat([c]) == c && CryptoSegments([c]) == [SegmentOf(c)] && OtherFrames([c]) == []
  {
    hide Whole, SegmentOf;
    assert [c][1..] == [] && c + [] == c;
    assert [SegmentOf(c)] + [] == [SegmentOf(c)];
  }

  lemma ThreeFramed(os: seq<bytes>, c: bytes, padding: nat)
    requires Closed(os) && Whole(c) && IsCrypto(c)
    ensures forall i :: 0 <= i < |os| ==> Whole(os[i])
    ensures forall i :: 0 <= i < |os + [c]| ==> Whole((os + [c])[i])
    ensures WellFramed(os + [c] + PadFrames(padding))
  {
    PadFramesAreZeros(padding);
    hide Whole, Zeros;
    AppendOne(os, c);
    AppendPads(os + [c], PadFrames(padding));
  }

  lemma AppendOne(os: seq<bytes>, c: bytes)
    requires Closed(os) && Whole(c) && IsCrypto(c)
    ensures Closed(os + [c])
    ensures forall i :: 0 <= i < |os| ==> Whole(os[i])
    ensures forall i :: 0 <= i < |os + [c]| ==> Whole((os + [c])[i])
  {
    hide Whole;
    assert !OpenEnded(c[0]);
  }

  lemma AppendPads(fs: seq<bytes>, pads: seq<bytes>)
    requires Closed(fs) && forall i :: 0 <= i < |pads| ==> Whole(pads[i]) && pads[i] == [0x00]
    ensures WellFramed(fs + pads)
  {
    hide Whole;
    var all := fs + pads;
    forall i | 0 <= i < |all|
      ensures Whole(all[i]) && |all[i]| > 0 && !OpenEnded(all[i][0])
    {
      if i >= |fs| {
        assert all[i] == pads[i - |fs|];
      } else {
        assert all[i] == fs[i];
      }
      FirstByte(all[i]);
    }
  }

  // ---- what a split preserves ---------------------------------------------

  lemma BlankRepresents(n: nat)
    ensures Represents(Blank(n), [], n)
  {
  }

  /** The stream that is split is the union of the payload's segments, without a hole. */
  lemma WholeStreamExact(segs: seq<Segment>)
    ensures WholeStream(segs).Some? ==>
      var stream := WholeStream(segs).value;
      && |stream| == MaxEnd(segs)
      && Consistent(segs)
      && Represents(Buffer(stream, AllSeen(|stream|)), segs, MaxEnd(segs))
  {
    var n := MaxEnd(segs);
    BlankRepresents(n);
    MergeSegmentsExact(Blank(n), [], n, segs);
    assert [] + segs == segs;
    if WholeStream(segs).Some? {
      var r := MergeSegments(Blank(n), segs);
      assert r.buffer.covered == AllSeen(n);
    }
  }

  /** There is a whole stream exactly if no two segments disagree and every byte up to the furthest end is covered. */
  lemma WholeStreamExists(segs: seq<Segment>)
    ensures WholeStream(segs).Some? <==> Consistent(segs) && NoHole(segs)
  {
    var n := MaxEnd(segs);
    BlankRepresents(n);
    MergeSegmentsExact(Blank(n), [], n, segs);
    assert [] + segs == segs;
    var r := MergeSegments(Blank(n), segs);
    hide MergeSegments, Consistent;
    if r.ok {
      CoveredExactly(r.buffer, segs, n);
    }
  }

  ghost predicate NoHole(segs: seq<Segment>) {
    forall i: nat :: i < MaxEnd(segs) ==> CoveredBy(segs, i)
  }

  lemma CoveredExactly(b: Buffer, segs: seq<Segment>, n: nat)
    requires Represents(b, segs, n)
    ensures |b.covered| == n && forall i :: 0 <= i < n ==> (b.covered[i] <==> CoveredBy(segs, i))
  {
  }

  /**
   * A payload is split exactly if it parses, carries CRYPTO data that reach no further than the payload is long, agree and
   * leave no hole, and the stream shows a host name of at least two bytes.
   */
  lemma SplitsExactly(plaintext: bytes)
    ensures SplitInitialCryptoFrames(plaintext).Some? <==>
      && Frames(plaintext).Some?
      && var segs := CryptoSegments(Frames(plaintext).value);
      && segs != [] && MaxEnd(segs) <= |plaintext| && Consistent(segs) && NoHole(segs)
      && WholeStream(segs).Some?
      && SniHostNameRange(WholeStream(segs).value).Some? && SniHostNameRange(WholeStream(segs).value).value.length >= 2
  {
    hide Frames, WholeStream, Consistent, NoHole, SniHostNameRange, CryptoSegments, OtherFrames, BuildCryptoFrame, MaxEnd;
    if Frames(plaintext).Some? {
      WholeStreamExists(CryptoSegments(Frames(plaintext).value));
    }
  }

  /** Cutting a stream in two and putting both halves back. */
  lemma HalvesRepresent(stream: bytes, k: nat)
    requires 0 < k < |stream|
    ensures var segs := [Segment(0, stream[..k]), Segment(k, stream[k..])];
      && Consistent(segs)
      && MaxEnd(segs) == |stream|
      && Represents(Buffer(stream, AllSeen(|stream|)), segs, |stream|)
  {
    var a, b := Segment(0, stream[..k]), Segment(k, stream[k..]);
    var segs := [a, b];
    MaxEndCons(a, [b]);
    MaxEndCons(b, []);
    assert [a] + [b] == segs && [b] + [] == [b];
    var whole := Buffer(stream, AllSeen(|stream|));
    forall i | 0 <= i < |stream| && whole.covered[i]
      ensures exists s :: s in segs && s.Covers(i)
    {
      if i < k {
        assert a in segs && a.Covers(i);
      } else {
        assert b in segs && b.Covers(i);
      }
    }
  }

  /** The pieces a successful split is made of. */
  lemma SplitParts(plaintext: bytes) returns (fs: seq<bytes>, stream: bytes, k: nat)
    requires SplitInitialCryptoFrames(plaintext).Some?
    ensures Frames(plaintext) == Some(fs) && WellFramed(fs)
    ensures CryptoSegments(fs) != []
    ensures WholeStream(CryptoSegments(fs)) == Some(stream) && |stream| == MaxEnd(CryptoSegments(fs)) <= |plaintext|
    ensures SplitAt(stream) == Some(k)
    ensures SplitInitialCryptoFrames(plaintext).value
         == Fragments(Concat(OtherFrames(fs)) + BuildCryptoFrame(0, stream[..k]), BuildCryptoFrame(k, stream[k..]))
  {
    hide Frames, FrameEnd, WholeStream, CryptoSegments, OtherFrames, BuildCryptoFrame, SplitAt;
    fs := Frames(plaintext).value;
    stream := WholeStream(CryptoSegments(fs)).value;
    k := SplitAt(stream).value;
    WholeStreamExact(CryptoSegments(fs));
  }

  /** A payload whose CRYPTO frames carry one stretch of stream, next to the given other frames. */
  ghost predicate Carries(p: bytes, s: Segment, others: seq<bytes>) {
    && Frames(p).Some?
    && CryptoSegments(Frames(p).value) == [s]
    && OtherFrames(Frames(p).value) == others
  }

  /**
   * Splitting preserves the payload: with any zero padding behind them, the two fragments parse; their CRYPTO frames
   * carry the two halves of the original stream, every other non-PADDING frame survives in order in the first, and the
   * cut falls strictly inside the host name.
   */
  lemma SplitPreserves(plaintext: bytes, padFirst: nat, padSecond: nat) returns (stream: bytes, k: nat)
    requires SplitInitialCryptoFrames(plaintext).Some?
    requires |plaintext| < MAX_VARINT
    requires Closed(Frames(plaintext).value)
    ensures WholeStream(CryptoSegments(Frames(plaintext).value)) == Some(stream) && 0 < k < |stream|
    ensures var r := SplitInitialCryptoFrames(plaintext).value;
      && Carries(r.first + Zeros(padFirst), Segment(0, stream[..k]), OtherFrames(Frames(plaintext).value))
      && Carries(r.second + Zeros(padSecond), Segment(k, stream[k..]), [])
    ensures var sni := SniHostNameRange(stream);
      sni.Some? && sni.value.offset < k < sni.value.offset + sni.value.length
  {
    hide Whole, Frames, FrameEnd, Closed, SniHostNameRange, BuildCryptoFrame, WholeStream, OtherFrames, CryptoSegments,
      SplitInitialCryptoFrames, Carries, Concat, SplitAt;
    var fs: seq<bytes>;
    fs, stream, k := SplitParts(plaintext);
    var os := OtherFrames(fs);
    OthersOfOthers(fs);
    ClosedOthers(fs);
    ClosedNone();
    PaddedCarries(os, 0, stream[..k], padFirst);
    PaddedCarries([], k, stream[k..], padSecond);
    CutInside(stream, k);
    assert [] + BuildCryptoFrame(k, stream[k..]) == BuildCryptoFrame(k, stream[k..]);
  }

  lemma ClosedNone()
    ensures Closed([]) && Concat([]) == [] && CryptoSegments([]) == [] && OtherFrames([]) == []
  {
  }

  lemma CutInside(stream: bytes, k: nat)
    requires SplitAt(stream) == Some(k)
    ensures SniHostNameRange(stream).Some?
    ensures var sni := SniHostNameRange(stream).value; sni.offset < k < sni.offset + sni.length
  {
  }

  lemma PaddedCarries(os: seq<bytes>, offset: nat, data: bytes, padding: nat)
    requires Closed(os) && CryptoSegments(os) == []
    requires offset < MAX_VARINT && |data| < MAX_VARINT
    ensures Carries(Concat(os) + BuildCryptoFrame(offset, data) + Zeros(padding), Segment(offset, data), OtherFrames(os))
  {
    PaddedPayload(os, offset, data, padding);
    hide Whole, Frames, BuildCryptoFrame, OtherFrames, CryptoSegments;
    assert [] + [Segment(offset, data)] == [Segment(offset, data)];
  }

  lemma ClosedOthers(fs: seq<bytes>)
    requires Closed(fs)
    ensures Closed(OtherFrames(fs))
  {
    OthersOfOthers(fs);
    hide Whole, OtherFrames;
    var os := OtherFrames(fs);
    forall i | 0 <= i < |os|
      ensures Whole(os[i]) && !OpenEnded(os[i][0])
    {
      assert os[i] in fs;
    }
  }

  /**
   * The receiver sees no difference: reassembling the padded fragments, in either order, succeeds exactly if
   * reassembling the original payload does, and gives the same stream with the same coverage.
   */
  lemma SplitReassembles(plaintext: bytes, padFirst: nat, padSecond: nat)
    requires SplitInitialCryptoFrames(plaintext).Some?
    requires |plaintext| < MAX_VARINT
    requires Closed(Frames(plaintext).value)
    ensures var r := SplitInitialCryptoFrames(plaintext).value;
      var one, two := r.first + Zeros(padFirst), r.second + Zeros(padSecond);
      && SameReassembly([one, two], [plaintext])
      && SameReassembly([two, one], [plaintext])
  {
    var r := SplitInitialCryptoFrames(plaintext).value;
    var one, two := r.first + Zeros(padFirst), r.second + Zeros(padSecond);
    var stream, k := SplitPreserves(plaintext, padFirst, padSecond);
    hide Frames, SplitInitialCryptoFrames, WholeStream, SniHostNameRange, Closed, MergeAll, CryptoSegments, Zeros;
    HalvesReassemble(plaintext, one, two, stream, k);
    EitherOrder(one, two, plaintext);
  }

  lemma EitherOrder(one: bytes, two: bytes, plaintext: bytes)
    requires SameReassembly([one, two], [plaintext])
    ensures SameReassembly([two, one], [plaintext])
  {
    hide MergeAll;
    var there: seq<bytes> := [one, two];
    var back: seq<bytes> := [two, one];
    assert multiset(there) == multiset{one, two} == multiset(back);
    MergeOrderIndependent(there, back);
  }

  /** Two runs of merges from nothing succeed alike and, when they do, end in the same buffer. */
  ghost predicate SameReassembly(ps: seq<bytes>, qs: seq<bytes>) {
    && (MergeAll(ps, EMPTY).ok <==> MergeAll(qs, EMPTY).ok)
    && (MergeAll(ps, EMPTY).ok ==> MergeAll(ps, EMPTY) == MergeAll(qs, EMPTY))
  }

  lemma SegmentsWithin(p: bytes)
    requires Frames(p).Some?
    ensures PlainSegments(p).Some? <==> MaxEnd(CryptoSegments(Frames(p).value)) <= MAX_STREAM
    ensures PlainSegments(p).Some? ==> PlainSegments(p) == Some(CryptoSegments(Frames(p).value))
  {
    InRangeIsMaxEnd(CryptoSegments(Frames(p).value));
  }

  lemma HalvesReassemble(plaintext: bytes, one: bytes, two: bytes, stream: bytes, k: nat)
    requires 0 < k < |stream|
    requires Frames(plaintext).Some? && WholeStream(CryptoSegments(Frames(plaintext).value)) == Some(stream)
    requires Frames(one).Some? && CryptoSegments(Frames(one).value) == [Segment(0, stream[..k])]
    requires Frames(two).Some? && CryptoSegments(Frames(two).value) == [Segment(k, stream[k..])]
    ensures SameReassembly([one, two], [plaintext])
  {
    hide Frames, WholeStream, MergeAll, Represents, Consistent, PlainSegments, CryptoSegments;
    var segs := CryptoSegments(Frames(plaintext).value);
    var a, b := Segment(0, stream[..k]), Segment(k, stream[k..]);
    WholeStreamExact(segs);
    HalvesRepresent(stream, k);
    SegmentsWithin(plaintext);
    SegmentsWithin(one);
    SegmentsWithin(two);
    OneEnd(a);
    OneEnd(b);
    if |stream| <= MAX_STREAM {
      assert [a] + [b] == [a, b];
      MergesTo([plaintext], segs, stream) by {
        AllOfOne(plaintext);
      }
      MergesTo([one, two], [a, b], stream) by {
        AllOfTwo(one, two);
      }
    } else {
      Unacceptable([plaintext], plaintext);
      Unacceptable([one, two], two);
    }
  }

  lemma OneEnd(s: Segment)
    ensures MaxEnd([s]) == s.End()
  {
    MaxEndCons(s, []);
    assert [s] + [] == [s];
  }

  lemma Unacceptable(ps: seq<bytes>, p: bytes)
    requires p in ps && PlainSegments(p).None?
    ensures !MergeAll(ps, EMPTY).ok
  {
    MergeExact(ps);
  }

  /** Acceptable payloads whose segments cover a whole stream merge to that stream. */
  lemma MergesTo(ps: seq<bytes>, segs: seq<Segment>, stream: bytes)
    requires Acceptable(ps) && AllSegments(ps) == segs && Consistent(segs) && MaxEnd(segs) == |stream|
    requires Represents(Buffer(stream, AllSeen(|stream|)), segs, |stream|)
    ensures MergeAll(ps, EMPTY) == MergeResult(Buffer(stream, AllSeen(|stream|)), true)
  {
    hide MergeAll, Represents, Consistent, PlainSegments;
    MergeExact(ps);
    RepresentsUnique(MergeAll(ps, EMPTY).buffer, Buffer(stream, AllSeen(|stream|)), segs, segs, |stream|);
  }

  lemma AllOfOne(p: bytes)
    requires PlainSegments(p).Some?
    ensures AllSegments([p]) == PlainSegments(p).value
  {
    hide PlainSegments;
    assert [p][1..] == [];
  }

  lemma AllOfTwo(p: bytes, q: bytes)
    requires PlainSegments(p).Some? && PlainSegments(q).Some?
    ensures AllSegments([p, q]) == PlainSegments(p).value + PlainSegments(q).value
  {
    hide PlainSegments;
    assert [p, q][1..] == [q];
    AllOfOne(q);
  }

  lemma InRangeIsMaxEnd(segs: seq<Segment>)
    ensures InRange(segs) <==> MaxEnd(segs) <= MAX_STREAM
  {
    MaxEndIsMax(segs);
    if InRange(segs) && segs != [] {
      var s :| s in segs && s.End() == MaxEnd(segs);
    }
  }

  // ---- exactly when the split is safe -------------------------------------

  /** An open-ended frame swallows whatever is put behind it. */
  lemma OpenFrameSwallows(f: bytes, rest: bytes)
    requires Whole(f) && OpenEnded(f[0])
    ensures Whole(f + rest) && OpenEnded((f + rest)[0])
  {
    var g := f + rest;
    assert g[0] == f[0];
    var t := f[0];
    if t != 0x30 {
      var n := if t / 4 % 2 != 0 then 2 else 1;
      assert StreamEnd(f, 1, t) == Some(|f|);
      assert Agree(f, g, 0, 1, |f|);
      SkipVarintsLocal(f, g, 0, 1, |f|, n);
      assert StreamEnd(g, 1, t) == Some(|g|);
    }
  }

  lemma OpenFrameIsLast(fs: seq<bytes>)
    requires WellFramed(fs) && !Closed(fs)
    ensures fs != [] && OpenEnded(fs[|fs| - 1][0]) && Closed(fs[..|fs| - 1])
  {
    hide Whole, OpenEnded;
  }

  /** Behind an open-ended frame the CRYPTO frame of the first fragment is lost. */
  lemma CryptoSwallowed(fs: seq<bytes>, rest: bytes)
    requires WellFramed(fs) && !Closed(fs)
    ensures Frames(Concat(OtherFrames(fs)) + rest).Some?
    ensures CryptoSegments(Frames(Concat(OtherFrames(fs)) + rest).value) == []
  {
    hide Whole, OpenEnded, OtherFrames, CryptoSegments, Frames, Closed;
    OpenFrameIsLast(fs);
    var init, last := fs[..|fs| - 1], fs[|fs| - 1];
    assert fs == init + [last];
    AllWhole(init);
    OneOpen(last);
    OtherFramesAppend(init, [last]);
    var os := OtherFrames(init);
    OthersOfOthers(init);
    ClosedOthers(init);
    AllWhole(os);
    OpenFrameSwallows(last, rest);
    OneOpen(last + rest);
    var gs := os + [last + rest];
    ClosedThenOne(os, last + rest);
    FramesOfConcat(gs);
    ConcatAppend(os, [last]);
    ConcatAppend(os, [last + rest]);
    assert Concat(os) + last + rest == Concat(os) + (last + rest);
    CryptoSegmentsAppend(os, [last + rest]);
    assert [] + [] == CryptoSegments(gs);
  }

  lemma AllWhole(fs: seq<bytes>)
    requires Closed(fs)
    ensures forall i :: 0 <= i < |fs| ==> Whole(fs[i])
  {
  }

  lemma OneOpen(f: bytes)
    requires Whole(f) && OpenEnded(f[0])
    ensures Concat([f]) == f && OtherFrames([f]) == [f] && CryptoSegments([f]) == []
  {
    assert [f][1..] == [];
    assert f + [] == f;
    assert [f] + [] == [f];
  }

  lemma ClosedThenOne(fs: seq<bytes>, f: bytes)
    requires Closed(fs) && Whole(f)
    ensures WellFramed(fs + [f])
  {
  }

  /** The first fragment carries its half of the stream exactly if no frame of the payload runs to the end of the packet. */
  lemma SplitExactlyWhenClosed(plaintext: bytes, padding: nat)
    requires SplitInitialCryptoFrames(plaintext).Some? && |plaintext| < MAX_VARINT
    ensures var fs := Frames(plaintext).value;
      var stream := WholeStream(CryptoSegments(fs)).value;
      var k := SplitAt(stream).value;
      Carries(SplitInitialCryptoFrames(plaintext).value.first + Zeros(padding), Segment(0, stream[..k]), OtherFrames(fs))
      <==> Closed(fs)
  {
    hide Closed, Frames, SplitInitialCryptoFrames, OtherFrames, CryptoSegments, BuildCryptoFrame, WholeStream, SplitAt;
    var fs, stream, k := SplitParts(plaintext);
    if Closed(fs) {
      OthersOfOthers(fs);
      ClosedOthers(fs);
      PaddedCarries(OtherFrames(fs), 0, stream[..k], padding);
    } else {
      var c, z := BuildCryptoFrame(0, stream[..k]), Zeros(padding);
      CryptoSwallowed(fs, c + z);
      assert Concat(OtherFrames(fs)) + c + z == Concat(OtherFrames(fs)) + (c + z);
    }
  }

  // ---- the loops ----------------------------------------------------------

  /** Frames already passed, then the frames still to come. */
  function Behind(done: seq<bytes>, more: Option<seq<bytes>>): (fs: Option<seq<bytes>>)
  {
    match more
    case None => None
    case Some(m) => Some(done + m)
  }

  datatype Collected = Collected(others: bytes, segments: seq<Segment>, streamLength: nat)

  /** The first pass: other frames and CRYPTO segments, or None where a frame cannot be read. */
  method CollectFrames(plaintext: bytes) returns (r: Option<Collected>)
    ensures r == match Frames(plaintext)
                 case None => None
                 case Some(fs) =>
                   Some(Collected(Concat(OtherFrames(fs)), CryptoSegments(fs), MaxEnd(CryptoSegments(fs))))
  {
    hide FrameEnd, Frames, Whole, OtherFrames, CryptoSegments;
    var others: bytes := [];
    var segments: seq<Segment> := [];
    var streamLength := 0;
    var off := 0;
    ghost var done: seq<bytes> := [];
    ghost var all := Frames(plaintext);
    ClosedNone();
    assert plaintext[0..] == plaintext;
    assert all == Behind(done, all) by {
      assert all.Some? ==> [] + all.value == all.value;
    }
    while off < |plaintext|
      invariant off <= |plaintext|
      invariant all == Behind(done, Frames(plaintext[off..]))
      invariant forall i :: 0 <= i < |done| ==> Whole(done[i])
      invariant others == Concat(OtherFrames(done))
      invariant segments == CryptoSegments(done) && streamLength == MaxEnd(segments)
      decreases |plaintext| - off
    {
      FramesStep(plaintext, off);
      var end := FrameEnd(plaintext, off);
      if end.None? {
        return None;
      }
      FrameCut(plaintext, off);
      var f := plaintext[off..end.value];
      CollectStep(done, f);
      assert Frames(plaintext[end.value..]).Some? ==>
        done + [f] + Frames(plaintext[end.value..]).value == done + ([f] + Frames(plaintext[end.value..]).value);
      if f[0] == 0x06 {
        var s := SegmentOf(f);
        MaxEndAppend(segments, [s]);
        OneEnd(s);
        if s.End() > streamLength {
          streamLength := s.End();
        }
        segments := segments + [s];
      } else if f[0] != 0x00 {
        others := others + f;
      }
      done := done + [f];
      off := end.value;
    }
    assert plaintext[|plaintext|..] == [];
    assert Frames([]) == Some([]) by {
      FramesOfConcat([]);
    }
    assert done + [] == done;
    return Some(Collected(others, segments, streamLength));
  }

  lemma CollectStep(done: seq<bytes>, f: bytes)
    requires forall i :: 0 <= i < |done| ==> Whole(done[i])
    requires Whole(f)
    ensures |f| > 0
    ensures forall i :: 0 <= i < |done + [f]| ==> Whole((done + [f])[i])
    ensures CryptoSegments(done + [f]) == CryptoSegments(done) + (if f[0] == 0x06 then [SegmentOf(f)] else [])
    ensures Concat(OtherFrames(done + [f]))
         == Concat(OtherFrames(done)) + (if f[0] != 0x00 && f[0] != 0x06 then f else [])
    ensures f[0] != 0x06 ==> CryptoSegments(done + [f]) == CryptoSegments(done)
    ensures f[0] == 0x00 || f[0] == 0x06 ==> Concat(OtherFrames(done + [f])) == Concat(OtherFrames(done))
  {
    hide Whole, SegmentOf;
    FirstByte(f);
    CryptoSegmentsAppend(done, [f]);
    OtherFramesAppend(done, [f]);
    ConcatAppend(OtherFrames(done), OtherFrames([f]));
    assert [f][1..] == [];
    assert Concat([f]) == f + [] == f;
    assert forall s: seq<Segment> :: s + [] == s;
  }

  /** The second pass: all segments into one buffer, stopping at the first contradiction. */
  method FillStream(segments: seq<Segment>, streamLength: nat) returns (r: MergeResult)
    requires streamLength == MaxEnd(segments)
    ensures r == MergeSegments(Blank(streamLength), segments)
  {
    hide MergeSegment, WriteBytes;
    MaxEndIsMax(segments);
    var b := Blank(streamLength);
    for i := 0 to |segments|
      invariant Sound(b) && |b.stream| == streamLength
      invariant MergeSegments(Blank(streamLength), segments) == MergeSegments(b, segments[i..])
    {
      var s := segments[i];
      assert s in segments;
      assert segments[i..][0] == s && segments[i..][1..] == segments[i + 1..];
      var w := WriteBytesLoop(b, s.offset, s.data);
      assert MergeSegment(b, s) == w by {
        NoExtension(b, s);
      }
      if !w.ok {
        return w;
      }
      b := w.buffer;
    }
    assert segments[|segments|..] == [];
    return MergeResult(b, true);
  }

  lemma NoExtension(b: Buffer, s: Segment)
    requires Sound(b) && s.End() <= |b.stream|
    ensures MergeSegment(b, s) == WriteBytes(b, s.offset, s.data)
  {
  }

  method SplitInitial(plaintext: bytes) returns (r: Option<Fragments>)
    ensures r == SplitInitialCryptoFrames(plaintext)
  {
    hide Frames, MergeSegments, SniHostNameRange, OtherFrames, CryptoSegments, BuildCryptoFrame;
    var collected := CollectFrames(plaintext);
    if collected.None? {
      return None;
    }
    var Collected(others, segments, streamLength) := collected.value;
    if |segments| == 0 || streamLength > |plaintext| {
      return None;
    }
    var filled := FillStream(segments, streamLength);
    if !filled.ok {
      return None;
    }
    for i := 0 to |filled.buffer.covered|
      invariant forall j :: 0 <= j < i ==> filled.buffer.covered[j]
    {
      if !filled.buffer.covered[i] {
        return None;
      }
    }
    var stream := filled.buffer.stream;
    var sni := FindSni(stream);
    if sni.None? || sni.value.length <= 1 {
      return None;
    }
    var split := sni.value.offset + sni.value.length / 2;
    if split <= 0 || split >= |stream| {
      return None;
    }
    return Some(Fragments(others + BuildCryptoFrame(0, stream[..split]), BuildCryptoFrame(split, stream[split..])));
  }
}
