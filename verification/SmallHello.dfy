/** A short ClientHello that can be split, and a payload around it that should not be. */
module SmallHello {
  import opened Bytes
  import opened Framing
  import opened Reassembly
  import opened ClientHello
  import opened Splitting

  /** A short ClientHello: one cipher suite, and a host name of two letters for its one extension. */
  const HELLO: bytes :=
    [0x01, 0, 0, 54, 3, 3] + Zeros(32) + [0, 0, 2, 0x13, 0x01, 1, 0, 0, 11] + [0, 0, 0, 7, 0, 5, 0, 0, 2, 0x61, 0x62]

  lemma HelloIsCut()
    ensures |HELLO| == 58 && SplitAt(HELLO) == Some(57)
  {
    var h := HELLO;
    assert h[0] == 1 && h[38] == 0 && h[39] == 0 && h[40] == 2 && h[43] == 1 && h[45] == 0 && h[46] == 11;
    assert h[47] == 0 && h[48] == 0 && h[49] == 0 && h[50] == 7 && h[54] == 0 && h[55] == 2;
    assert ExtensionsRange(h) == Some(Range(47, 11));
    assert SniInExtensions(h, 47, 58) == Some(Range(56, 2));
  }

  /** One segment that starts the stream is the whole stream. */
  lemma OneSegmentIsWhole(stream: bytes)
    ensures WholeStream([Segment(0, stream)]) == Some(stream)
  {
    var s := Segment(0, stream);
    var b := Blank(|stream|);
    assert [s][..|[s]| - 1] == [] && MaxEnd([s]) == |stream|;
    BlankRepresents(|stream|);
    MergeSegmentExact(b, [], |stream|, s);
    assert [] + [s] == [s] && [s][1..] == [];
    var m := MergeSegment(b, s).buffer;
    assert MergeSegments(b, [s]) == MergeResult(m, true);
    hide MergeSegment, MergeSegments;
    assert s in [s];
    forall k | 0 <= k < |stream|
      ensures m.covered[k] && m.stream[k] == stream[k]
    {
      assert s.Covers(k);
    }
    assert m.stream == stream;
  }

  lemma OneSegmentSplits(p: bytes, fs: seq<bytes>, stream: bytes)
    requires Frames(p) == Some(fs) && CryptoSegments(fs) == [Segment(0, stream)]
    requires |stream| <= |p| && SplitAt(stream).Some?
    ensures SplitInitialCryptoFrames(p).Some?
  {
    OneSegmentIsWhole(stream);
    OneEnd(Segment(0, stream));
    hide Frames, CryptoSegments, SplitAt, WholeStream, BuildCryptoFrame, OtherFrames, MaxEnd, Whole;
  }

  lemma BuiltSize()
    ensures |BuildCryptoFrame(0, HELLO)| == 61
  {
    assert |HELLO| == 58;
  }

  // ---- a payload with an open-ended frame ---------------------------------

  /** The ClientHello in a CRYPTO frame, then a DATAGRAM frame without a length. */
  const OPEN_PAYLOAD: bytes := BuildCryptoFrame(0, HELLO) + [0x30]

  /**
   * It splits although it is not closed: the DATAGRAM frame moves in front of the first half of the stream and swallows it,
   * with any padding.
   */
  lemma OpenEndedSplits(padding: nat)
    ensures SplitInitialCryptoFrames(OPEN_PAYLOAD).Some? && Frames(OPEN_PAYLOAD).Some?
    ensures !Closed(Frames(OPEN_PAYLOAD).value)
    ensures var first := SplitInitialCryptoFrames(OPEN_PAYLOAD).value.first + Zeros(padding);
      Frames(first).Some? && CryptoSegments(Frames(first).value) == []
  {
    hide Whole, Frames, SegmentOf, SplitAt, WholeStream, CryptoSegments, SplitInitialCryptoFrames, BuildCryptoFrame, OtherFrames,
      Closed, Zeros;
    HelloIsCut();
    BuiltSize();
    BuiltFrame(0, HELLO);
    OpenPayloadFrames();
    var fs := [BuildCryptoFrame(0, HELLO), [0x30]];
    OneSegmentSplits(OPEN_PAYLOAD, fs, HELLO);
    var parts, stream, k := SplitParts(OPEN_PAYLOAD);
    var tail := BuildCryptoFrame(0, stream[..k]) + Zeros(padding);
    CryptoSwallowed(fs, tail);
    assert Concat(OtherFrames(fs)) + BuildCryptoFrame(0, stream[..k]) + Zeros(padding) == Concat(OtherFrames(fs)) + tail;
  }

  lemma OpenPayloadFrames()
    ensures var fs := [BuildCryptoFrame(0, HELLO), [0x30]];
      && WellFramed(fs) && Frames(OPEN_PAYLOAD) == Some(fs) && !Closed(fs) && CryptoSegments(fs) == [Segment(0, HELLO)]
  {
    var c: bytes, d: bytes := BuildCryptoFrame(0, HELLO), [0x30];
    BuiltSize();
    BuiltFrame(0, HELLO);
    assert Whole(d);
    hide Whole, Frames, SegmentOf, BuildCryptoFrame;
    var fs := [c, d];
    OneOpen(d);
    assert fs[0] == c && fs[1] == d && fs[1..] == [d];
    assert Concat(fs) == c + Concat(fs[1..]);
    FramesOfConcat(fs);
    assert CryptoSegments(fs) == [SegmentOf(c)] + CryptoSegments(fs[1..]);
  }
}
