/** Reassembly of the CRYPTO stream: mergeInitialCryptoFrames, extractCryptoStream, contiguousCryptoStream. */
module Reassembly {
  import opened Bytes
  import opened Varint
  import opened Framing

  /** quicUDPPacketSize, the end beyond which no CRYPTO frame may reach. */
  const MAX_STREAM: nat := 65535

  datatype Segment = Segment(offset: nat, data: bytes) {
    function End(): (e: nat) {
      offset + |data|
    }

    predicate Covers(i: nat) {
      offset <= i < End()
    }

    function At(i: nat): byte
      requires Covers(i)
    {
      data[i - offset]
    }
  }

  predicate IsCrypto(f: bytes) {
    f != [] && f[0] == 0x06
  }

  /** The stretch of stream a whole CRYPTO frame carries. */
  function SegmentOf(f: bytes): (s: Segment)
    requires Whole(f) && IsCrypto(f)
  {
    var offset := VarintAt(f, 1).value;
    var length := VarintAt(f, offset.next).value;
    Segment(offset.value, f[length.next..])
  }

  function CryptoSegments(fs: seq<bytes>): (segs: seq<Segment>)
    requires forall i :: 0 <= i < |fs| ==> Whole(fs[i])
  {
    if fs == [] then []
    else (if IsCrypto(fs[0]) then [SegmentOf(fs[0])] else []) + CryptoSegments(fs[1..])
  }

  /** The CRYPTO segments of a payload, if it parses and none reaches beyond the limit. */
  function PlainSegments(p: bytes): (segs: Option<seq<Segment>>)
  {
    match Frames(p)
    case None => None
    case Some(fs) => if InRange(CryptoSegments(fs)) then Some(CryptoSegments(fs)) else None
  }

  predicate InRange(segs: seq<Segment>) {
    forall i :: 0 <= i < |segs| ==> segs[i].End() <= MAX_STREAM
  }

  lemma InRangeCons(s: Segment, segs: seq<Segment>)
    ensures InRange([s] + segs) <==> s.End() <= MAX_STREAM && InRange(segs)
  {
    var all := [s] + segs;
    if InRange(all) {
      assert all[0] == s;
      forall i | 0 <= i < |segs|
        ensures segs[i].End() <= MAX_STREAM
      {
        assert segs[i] == all[i + 1];
      }
    }
  }

  // ---- the buffer ---------------------------------------------------------

  /** The stream seen so far and which of its bytes have arrived. */
  datatype Buffer = Buffer(stream: bytes, covered: seq<bool>)

  datatype MergeResult = MergeResult(buffer: Buffer, ok: bool)

  const EMPTY: Buffer := Buffer([], [])

  predicate Sound(b: Buffer) {
    |b.stream| == |b.covered|
  }

  function Extend(b: Buffer, n: nat): (r: Buffer)
    requires Sound(b)
    ensures Sound(r) && |r.stream| == if n > |b.stream| then n else |b.stream|
  {
    if n > |b.stream| then
      Buffer(b.stream + Zeros(n - |b.stream|), b.covered + seq(n - |b.stream|, _ => false))
    else b
  }

  /** Writes byte by byte and stops at the first byte that contradicts one already there. */
  function WriteBytes(b: Buffer, off: nat, data: bytes): (r: MergeResult)
    requires Sound(b) && off + |data| <= |b.stream|
    ensures Sound(r.buffer) && |r.buffer.stream| == |b.stream|
    decreases |data|
  {
    if data == [] then MergeResult(b, true)
    else if b.covered[off] && b.stream[off] != data[0] then MergeResult(b, false)
    else WriteBytes(Buffer(b.stream[off := data[0]], b.covered[off := true]), off + 1, data[1..])
  }

  function MergeSegment(b: Buffer, s: Segment): (r: MergeResult)
    requires Sound(b)
    ensures Sound(r.buffer)
  {
    WriteBytes(Extend(b, s.End()), s.offset, s.data)
  }

  function MergeSegments(b: Buffer, segs: seq<Segment>): (r: MergeResult)
    requires Sound(b)
    ensures Sound(r.buffer)
    decreases |segs|
  {
    if segs == [] then MergeResult(b, true)
    else
      var r := MergeSegment(b, segs[0]);
      if r.ok then MergeSegments(r.buffer, segs[1..]) else r
  }

  function MergeFrames(p: bytes, b: Buffer): (r: MergeResult)
    requires Sound(b)
    ensures Sound(r.buffer)
    decreases |p|
  {
    if p == [] then MergeResult(b, true)
    else
      match FrameEnd(p, 0)
      case None => MergeResult(b, false)
      case Some(n) =>
        FrameCut(p, 0);
        var f := p[..n];
        if IsCrypto(f) then
          var s := SegmentOf(f);
          if s.End() > MAX_STREAM then MergeResult(b, false)
          else
            var r := MergeSegment(b, s);
            if r.ok then MergeFrames(p[n..], r.buffer) else r
        else MergeFrames(p[n..], b)
  }

  function MergeAll(ps: seq<bytes>, b: Buffer): (r: MergeResult)
    requires Sound(b)
    ensures Sound(r.buffer)
  {
    if ps == [] then MergeResult(b, true)
    else
      var r := MergeFrames(ps[0], b);
      if r.ok then MergeAll(ps[1..], r.buffer) else r
  }

  // ---- what a buffer says -------------------------------------------------

  /** Two segments give the same byte wherever both have one. */
  ghost predicate Compatible(s: Segment, t: Segment) {
    forall i: nat :: s.Covers(i) && t.Covers(i) ==> s.At(i) == t.At(i)
  }

  /** A segment has a byte there. */
  ghost predicate CoveredBy(segs: seq<Segment>, i: nat) {
    exists s :: s in segs && s.Covers(i)
  }

  ghost predicate Consistent(segs: seq<Segment>) {
    forall s, t :: s in segs && t in segs ==> Compatible(s, t)
  }

  function Max(a: nat, b: nat): nat {
    if a < b then b else a
  }

  function MaxEnd(segs: seq<Segment>): (e: nat)
  {
    if segs == [] then 0 else Max(MaxEnd(segs[..|segs| - 1]), segs[|segs| - 1].End())
  }

  /** Byte i has arrived exactly if a segment covers it, and then it is that segment's byte; bytes not arrived are zero. */
  ghost predicate Represents(b: Buffer, segs: seq<Segment>, length: nat) {
    && Sound(b) && |b.stream| == length
    && (forall s :: s in segs ==> s.End() <= length)
    && (forall i {:trigger b.covered[i]} :: 0 <= i < length && b.covered[i] ==> exists s :: s in segs && s.Covers(i))
    && (forall s, i {:trigger s in segs, b.covered[i]} :: s in segs && 0 <= i < length && s.Covers(i) ==> b.covered[i])
    && (forall s, i {:trigger s in segs, b.stream[i]} :: s in segs && 0 <= i < length && s.Covers(i) ==> b.stream[i] == s.At(i))
    && (forall i {:trigger b.stream[i]} :: 0 <= i < length && !b.covered[i] ==> b.stream[i] == 0)
  }

  lemma {:induction false} WriteBytesExact(b: Buffer, off: nat, data: bytes)
    requires Sound(b) && off + |data| <= |b.stream|
    ensures var r := WriteBytes(b, off, data);
      && (r.ok <==> forall i :: off <= i < off + |data| && b.covered[i] ==> b.stream[i] == data[i - off])
      && (r.ok ==> forall i :: 0 <= i < |b.stream| ==>
            && r.buffer.covered[i] == (b.covered[i] || off <= i < off + |data|)
            && r.buffer.stream[i] == if off <= i < off + |data| then data[i - off] else b.stream[i])
    decreases |data|
  {
    if data == [] {
    } else if b.covered[off] && b.stream[off] != data[0] {
    } else {
      var b' := Buffer(b.stream[off := data[0]], b.covered[off := true]);
      WriteBytesExact(b', off + 1, data[1..]);
      forall i | off + 1 <= i < off + |data|
        ensures b'.covered[i] == b.covered[i] && b'.stream[i] == b.stream[i] && data[1..][i - (off + 1)] == data[i - off]
      {
      }
    }
  }

  /** k is where the data first contradicts what has arrived. */
  ghost predicate FirstConflict(b: Buffer, off: nat, data: bytes, k: nat)
    requires Sound(b) && off + |data| <= |b.stream|
  {
    && k < |data| && b.covered[off + k] && b.stream[off + k] != data[k]
    && forall j :: 0 <= j < k && b.covered[off + j] ==> b.stream[off + j] == data[j]
  }

  /** A write that fails has written all before the first contradiction and nothing from there on. */
  lemma {:induction false} WriteBytesStops(b: Buffer, off: nat, data: bytes) returns (k: nat)
    requires Sound(b) && off + |data| <= |b.stream| && !WriteBytes(b, off, data).ok
    ensures FirstConflict(b, off, data, k)
    ensures var b' := WriteBytes(b, off, data).buffer;
      forall i :: 0 <= i < |b.stream| ==>
        && b'.covered[i] == (b.covered[i] || off <= i < off + k)
        && b'.stream[i] == if off <= i < off + k then data[i - off] else b.stream[i]
    decreases |data|
  {
    if b.covered[off] && b.stream[off] != data[0] {
      k := 0;
    } else {
      var n := Buffer(b.stream[off := data[0]], b.covered[off := true]);
      var j := WriteBytesStops(n, off + 1, data[1..]);
      k := j + 1;
      assert data[1..][j] == data[k];
      forall i | 0 <= i < k && b.covered[off + i]
        ensures b.stream[off + i] == data[i]
      {
        if i > 0 {
          assert n.covered[off + 1 + (i - 1)] && data[1..][i - 1] == data[i];
        }
      }
    }
  }

  /** A payload of one CRYPTO frame merges exactly if it ends within 65535 bytes and contradicts nothing that has arrived. */
  lemma OneCryptoMerges(f: bytes, b: Buffer)
    requires Sound(b) && Whole(f) && f[0] == 0x06
    ensures MergeFrames(f, b).ok <==> SegmentOf(f).End() <= 65535 && Fits(b, SegmentOf(f))
  {
    hide SegmentOf, MergeSegment, Fits;
    assert f[..|f|] == f && f[|f|..] == [];
    SegmentFits(b, SegmentOf(f));
    MergeNothing(MergeSegment(b, SegmentOf(f)).buffer);
  }

  /** Wherever a byte has arrived, the segment has the same one. */
  ghost predicate Fits(b: Buffer, s: Segment)
    requires Sound(b)
  {
    forall i: nat :: i < |b.stream| && b.covered[i] && s.Covers(i) ==> b.stream[i] == s.At(i)
  }

  lemma SegmentFits(b: Buffer, s: Segment)
    requires Sound(b)
    ensures MergeSegment(b, s).ok <==> Fits(b, s)
  {
    var e := Extend(b, s.End());
    WriteBytesExact(e, s.offset, s.data);
    hide WriteBytes;
    if Fits(b, s) {
      forall i | s.offset <= i < s.End() && e.covered[i]
        ensures e.stream[i] == s.data[i - s.offset]
      {
        assert s.Covers(i);
      }
    }
    if MergeSegment(b, s).ok {
      forall i: nat | i < |b.stream| && b.covered[i] && s.Covers(i)
        ensures b.stream[i] == s.At(i)
      {
        assert e.covered[i] && e.stream[i] == b.stream[i];
      }
    }
  }

  lemma MergeNothing(b: Buffer)
    requires Sound(b)
    ensures MergeFrames([], b) == MergeResult(b, true)
  {
  }

  /** Bytes that arrived stay, even when a merge fails half-way. */
  ghost predicate Grows(b: Buffer, b': Buffer) {
    && Sound(b) && Sound(b') && |b.stream| <= |b'.stream|
    && forall i :: 0 <= i < |b.stream| && b.covered[i] ==> b'.covered[i] && b'.stream[i] == b.stream[i]
  }

  lemma {:induction false} WriteBytesGrows(b: Buffer, off: nat, data: bytes)
    requires Sound(b) && off + |data| <= |b.stream|
    ensures Grows(b, WriteBytes(b, off, data).buffer)
    decreases |data|
  {
    if data == [] {
    } else if b.covered[off] && b.stream[off] != data[0] {
    } else {
      var b' := Buffer(b.stream[off := data[0]], b.covered[off := true]);
      WriteBytesGrows(b', off + 1, data[1..]);
    }
  }

  lemma MergeSegmentGrows(b: Buffer, s: Segment)
    requires Sound(b)
    ensures Grows(b, MergeSegment(b, s).buffer)
  {
    WriteBytesGrows(Extend(b, s.End()), s.offset, s.data);
  }

  lemma {:induction false} MergeFramesGrows(p: bytes, b: Buffer)
    requires Sound(b)
    ensures Grows(b, MergeFrames(p, b).buffer)
    decreases |p|
  {
    hide FrameEnd, MergeSegment;
    if p == [] {
    } else if FrameEnd(p, 0).Some? {
      var n := FrameEnd(p, 0).value;
      FrameCut(p, 0);
      if IsCrypto(p[..n]) {
        var s := SegmentOf(p[..n]);
        MergeSegmentGrows(b, s);
        MergeFramesGrows(p[n..], MergeSegment(b, s).buffer);
      } else {
        MergeFramesGrows(p[n..], b);
      }
    }
  }

  // ---- merging segments ---------------------------------------------------

  /** A segment merges exactly if it agrees with every segment before it, and the buffer then represents one more. */
  lemma MergeSegmentExact(b: Buffer, segs: seq<Segment>, length: nat, s: Segment)
    requires Represents(b, segs, length)
    ensures MergeSegment(b, s).ok <==> forall t :: t in segs ==> Compatible(s, t)
    ensures MergeSegment(b, s).ok ==> Represents(MergeSegment(b, s).buffer, segs + [s], Max(length, s.End()))
  {
    hide MergeSegment, Represents, Compatible;
    SoundOf(b, segs, length);
    if MergeSegment(b, s).ok {
      MergedAgrees(b, segs, length, s);
      MergedRepresents(b, segs, length, s);
    } else {
      var t := RefusedConflicts(b, segs, length, s);
    }
  }

  /** A segment that merges agrees with every earlier one. */
  lemma MergedAgrees(b: Buffer, segs: seq<Segment>, length: nat, s: Segment)
    requires Represents(b, segs, length) && MergeSegment(b, s).ok
    ensures forall t :: t in segs ==> Compatible(s, t)
  {
    var e := Extend(b, s.End());
    WriteBytesExact(e, s.offset, s.data);
    hide WriteBytes;
    forall t | t in segs
      ensures Compatible(s, t)
    {
      forall i: nat | s.Covers(i) && t.Covers(i)
        ensures s.At(i) == t.At(i)
      {
        assert b.covered[i] && b.stream[i] == t.At(i);
        assert e.covered[i] && e.stream[i] == b.stream[i];
      }
    }
  }

  /** A segment that does not merge disagrees with an earlier one. */
  lemma RefusedConflicts(b: Buffer, segs: seq<Segment>, length: nat, s: Segment) returns (t: Segment)
    requires Represents(b, segs, length) && !MergeSegment(b, s).ok
    ensures t in segs && !Compatible(s, t)
  {
    var e := Extend(b, s.End());
    WriteBytesExact(e, s.offset, s.data);
    hide WriteBytes;
    var i :| s.offset <= i < s.End() && e.covered[i] && e.stream[i] != s.data[i - s.offset];
    assert i < length && b.covered[i];
    t :| t in segs && t.Covers(i);
    assert b.stream[i] == t.At(i);
    assert s.Covers(i) && s.At(i) != t.At(i);
  }

  lemma MergedRepresents(b: Buffer, segs: seq<Segment>, length: nat, s: Segment)
    requires Represents(b, segs, length) && MergeSegment(b, s).ok
    requires forall t :: t in segs ==> Compatible(s, t)
    ensures Represents(MergeSegment(b, s).buffer, segs + [s], Max(length, s.End()))
  {
    var e := Extend(b, s.End());
    WriteBytesExact(e, s.offset, s.data);
    var m := MergeSegment(b, s).buffer;
    hide MergeSegment, WriteBytes;
    var all := segs + [s];
    forall i | 0 <= i < |m.stream| && m.covered[i]
      ensures exists t :: t in all && t.Covers(i)
    {
      if s.Covers(i) {
        assert s in all;
      } else {
        assert e.covered[i] && b.covered[i];
        var t :| t in segs && t.Covers(i);
        assert t in all;
      }
    }
    forall t, i | t in all && 0 <= i < |m.stream| && t.Covers(i)
      ensures m.covered[i] && m.stream[i] == t.At(i)
    {
      if t in segs {
        assert b.covered[i] && b.stream[i] == t.At(i);
        assert Compatible(s, t);
      }
    }
  }

  lemma ConsistentAppend(segs: seq<Segment>, s: Segment)
    ensures Consistent(segs + [s]) <==> Consistent(segs) && forall t :: t in segs ==> Compatible(s, t)
  {
    var all := segs + [s];
    if Consistent(all) {
      forall t | t in segs
        ensures Compatible(s, t)
      {
        assert t in all && s in all;
      }
      forall t, u | t in segs && u in segs
        ensures Compatible(t, u)
      {
        assert t in all && u in all;
      }
    }
    if Consistent(segs) && forall t :: t in segs ==> Compatible(s, t) {
      forall t, u | t in all && u in all
        ensures Compatible(t, u)
      {
      }
    }
  }

  lemma ConsistentPrefix(segs: seq<Segment>, more: seq<Segment>)
    requires Consistent(segs + more)
    ensures Consistent(segs)
  {
    forall s, t | s in segs && t in segs
      ensures Compatible(s, t)
    {
      assert s in segs + more && t in segs + more;
    }
  }

  /** Merging a list of segments succeeds exactly if all segments agree, old and new; the buffer then represents all of them. */
  lemma {:induction false} MergeSegmentsExact(b: Buffer, done: seq<Segment>, length: nat, segs: seq<Segment>)
    requires Represents(b, done, length) && Consistent(done)
    ensures MergeSegments(b, segs).ok <==> Consistent(done + segs)
    ensures MergeSegments(b, segs).ok ==> Represents(MergeSegments(b, segs).buffer, done + segs, Max(length, MaxEnd(segs)))
    decreases |segs|
  {
    if segs == [] {
      assert done + segs == done;
    } else {
      var s, rest := segs[0], segs[1..];
      MergeSegmentExact(b, done, length, s);
      ConsistentAppend(done, s);
      assert done + [s] + rest == done + segs;
      if MergeSegment(b, s).ok {
        MergeSegmentsExact(MergeSegment(b, s).buffer, done + [s], Max(length, s.End()), rest);
        MaxEndCons(s, rest);
        assert [s] + rest == segs;
      } else if Consistent(done + segs) {
        ConsistentPrefix(done + [s], rest);
      }
    }
  }

  lemma {:induction false} MaxEndCons(s: Segment, rest: seq<Segment>)
    ensures MaxEnd([s] + rest) == Max(s.End(), MaxEnd(rest))
  {
    if rest == [] {
      assert [s] + rest == [s];
      assert [s][..0] == [];
    } else {
      var k := |rest| - 1;
      MaxEndCons(s, rest[..k]);
      assert ([s] + rest)[..k + 1] == [s] + rest[..k];
    }
  }

  lemma {:induction false} MaxEndAppend(a: seq<Segment>, b: seq<Segment>)
    ensures MaxEnd(a + b) == Max(MaxEnd(a), MaxEnd(b))
  {
    if b == [] {
      assert a + b == a;
    } else {
      var k := |b| - 1;
      MaxEndAppend(a, b[..k]);
      assert (a + b)[..|a + b| - 1] == a + b[..k];
    }
  }

  lemma {:induction false} MaxEndIsMax(segs: seq<Segment>)
    ensures forall s :: s in segs ==> s.End() <= MaxEnd(segs)
    ensures segs != [] ==> exists s :: s in segs && s.End() == MaxEnd(segs)
  {
    if segs != [] {
      var k := |segs| - 1;
      MaxEndIsMax(segs[..k]);
      assert segs == segs[..k] + [segs[k]];
      if segs[k].End() == MaxEnd(segs) {
        assert segs[k] in segs;
      } else {
        assert MaxEnd(segs) == MaxEnd(segs[..k]) > segs[k].End();
        var s :| s in segs[..k] && s.End() == MaxEnd(segs[..k]);
        assert s in segs;
      }
    }
  }

  // ---- merging payloads ---------------------------------------------------

  /** The frame loop is the fold over the payload's segments, where the payload is acceptable. */
  lemma {:induction false} MergeFramesIsFold(p: bytes, b: Buffer)
    requires Sound(b)
    ensures MergeFrames(p, b).ok <==> PlainSegments(p).Some? && MergeSegments(b, PlainSegments(p).value).ok
    ensures MergeFrames(p, b).ok ==> MergeFrames(p, b) == MergeSegments(b, PlainSegments(p).value)
    decreases |p|
  {
    hide FrameEnd, MergeSegment, SegmentOf;
    if p == [] {
    } else if FrameEnd(p, 0).Some? {
      var n := FrameEnd(p, 0).value;
      FrameCut(p, 0);
      var f, rest := p[..n], p[n..];
      PlainSegmentsStep(p);
      if IsCrypto(f) {
        var s := SegmentOf(f);
        if s.End() <= MAX_STREAM {
          MergeFramesIsFold(rest, MergeSegment(b, s).buffer);
        }
      } else {
        MergeFramesIsFold(rest, b);
      }
    }
  }

  lemma PlainSegmentsStep(p: bytes)
    requires p != [] && FrameEnd(p, 0).Some?
    ensures Whole(p[..FrameEnd(p, 0).value])
    ensures var n := FrameEnd(p, 0).value;
      PlainSegments(p) ==
        if !IsCrypto(p[..n]) then PlainSegments(p[n..])
        else if SegmentOf(p[..n]).End() > MAX_STREAM then None
        else match PlainSegments(p[n..])
             case None => None
             case Some(segs) => Some([SegmentOf(p[..n])] + segs)
  {
    var n := FrameEnd(p, 0).value;
    FrameCut(p, 0);
    hide FrameEnd, SegmentOf, InRange;
    if Frames(p).Some? {
      var fs, rest := Frames(p).value, Frames(p[n..]).value;
      assert fs[0] == p[..n] && fs[1..] == rest;
      if IsCrypto(fs[0]) {
        InRangeCons(SegmentOf(fs[0]), CryptoSegments(rest));
      } else {
        assert [] + CryptoSegments(rest) == CryptoSegments(rest);
      }
    }
  }

  /** All segments of several payloads. */
  function AllSegments(ps: seq<bytes>): (segs: seq<Segment>)
    requires forall p :: p in ps ==> PlainSegments(p).Some?
  {
    if ps == [] then [] else PlainSegments(ps[0]).value + AllSegments(ps[1..])
  }

  ghost predicate Acceptable(ps: seq<bytes>) {
    forall p :: p in ps ==> PlainSegments(p).Some?
  }

  lemma {:induction false} MergeAllFrom(ps: seq<bytes>, b: Buffer, done: seq<Segment>, length: nat)
    requires Represents(b, done, length) && Consistent(done)
    ensures MergeAll(ps, b).ok <==> Acceptable(ps) && Consistent(done + AllSegments(ps))
    ensures MergeAll(ps, b).ok ==>
      Represents(MergeAll(ps, b).buffer, done + AllSegments(ps), Max(length, MaxEnd(AllSegments(ps))))
    decreases |ps|
  {
    hide PlainSegments, Represents, Consistent, MergeFrames;
    if ps == [] {
      assert done + [] == done;
    } else {
      var p, rest := ps[0], ps[1..];
      assert Acceptable(ps) <==> PlainSegments(p).Some? && Acceptable(rest);
      assert Sound(b) by {
        SoundOf(b, done, length);
      }
      MergeFramesIsFold(p, b);
      if PlainSegments(p).Some? {
        var segs := PlainSegments(p).value;
        MergeSegmentsExact(b, done, length, segs);
        if MergeFrames(p, b).ok {
          MergeAllFrom(rest, MergeFrames(p, b).buffer, done + segs, Max(length, MaxEnd(segs)));
        }
        if Acceptable(rest) {
          MaxEndAppend(segs, AllSegments(rest));
          assert done + segs + AllSegments(rest) == done + (segs + AllSegments(rest));
          if Consistent(done + AllSegments(ps)) {
            ConsistentPrefix(done + segs, AllSegments(rest));
          }
        }
      }
    }
  }

  lemma SoundOf(b: Buffer, segs: seq<Segment>, length: nat)
    requires Represents(b, segs, length)
    ensures Sound(b)
  {
  }

  /**
   * Reassembly from nothing: payloads merge exactly if each is acceptable and no two of their segments disagree,
   * and the buffer then represents their segments, no shorter and no longer than they reach.
   */
  lemma MergeExact(ps: seq<bytes>)
    ensures MergeAll(ps, EMPTY).ok <==> Acceptable(ps) && Consistent(AllSegments(ps))
    ensures MergeAll(ps, EMPTY).ok ==>
      Represents(MergeAll(ps, EMPTY).buffer, AllSegments(ps), MaxEnd(AllSegments(ps)))
  {
    MergeAllFrom(ps, EMPTY, [], 0);
    if Acceptable(ps) {
      assert [] + AllSegments(ps) == AllSegments(ps);
    }
  }

  lemma {:induction false} AllSegmentsMembers(ps: seq<bytes>)
    requires Acceptable(ps)
    ensures forall s :: s in AllSegments(ps) <==> exists p :: p in ps && s in PlainSegments(p).value
  {
    hide PlainSegments;
    if ps != [] {
      AllSegmentsMembers(ps[1..]);
      assert ps == [ps[0]] + ps[1..];
    }
  }

  /** A buffer is determined by the segments it represents. */
  lemma RepresentsUnique(a: Buffer, b: Buffer, segs: seq<Segment>, segs': seq<Segment>, length: nat)
    requires Represents(a, segs, length) && Represents(b, segs', length)
    requires forall s :: s in segs <==> s in segs'
    ensures a == b
  {
    forall i | 0 <= i < length
      ensures a.covered[i] == b.covered[i] && a.stream[i] == b.stream[i]
    {
      if a.covered[i] {
        var s :| s in segs && s.Covers(i);
        assert s in segs';
      }
      if b.covered[i] {
        var s :| s in segs' && s.Covers(i);
        assert s in segs;
      }
    }
  }

  /** Arrival order does not matter: a permutation of the payloads merges or fails alike, and leaves the same buffer. */
  lemma MergeOrderIndependent(ps: seq<bytes>, qs: seq<bytes>)
    requires multiset(ps) == multiset(qs)
    ensures MergeAll(ps, EMPTY).ok <==> MergeAll(qs, EMPTY).ok
    ensures MergeAll(ps, EMPTY).ok ==> MergeAll(ps, EMPTY) == MergeAll(qs, EMPTY)
  {
    hide PlainSegments, MergeAll, Represents;
    assert forall p :: p in ps <==> p in multiset(ps);
    assert forall p :: p in qs <==> p in multiset(qs);
    MergeExact(ps);
    MergeExact(qs);
    if Acceptable(ps) {
      AllSegmentsMembers(ps);
      AllSegmentsMembers(qs);
      var a, b := AllSegments(ps), AllSegments(qs);
      assert forall s :: s in a <==> s in b;
      assert Consistent(a) <==> Consistent(b);
      MaxEndIsMax(a);
      MaxEndIsMax(b);
      assert MaxEnd(a) == MaxEnd(b);
      if MergeAll(ps, EMPTY).ok {
        RepresentsUnique(MergeAll(ps, EMPTY).buffer, MergeAll(qs, EMPTY).buffer, a, b, MaxEnd(a));
      }
    }
  }

  /** The byte loop of a merge. */
  method WriteBytesLoop(b: Buffer, off: nat, data: bytes) returns (r: MergeResult)
    requires Sound(b) && off + |data| <= |b.stream|
    ensures r == WriteBytes(b, off, data)
  {
    var stream, covered := b.stream, b.covered;
    for i := 0 to |data|
      invariant |stream| == |covered| == |b.stream|
      invariant WriteBytes(b, off, data) == WriteBytes(Buffer(stream, covered), off + i, data[i..])
    {
      var target := off + i;
      assert data[i..][0] == data[i] && data[i..][1..] == data[i + 1..];
      if covered[target] && stream[target] != data[i] {
        return MergeResult(Buffer(stream, covered), false);
      }
      stream := stream[target := data[i]];
      covered := covered[target := true];
    }
    return MergeResult(Buffer(stream, covered), true);
  }

  /** The frame loop: every CRYPTO frame is written, the first contradiction or unreadable frame ends it. */
  method MergeFramesLoop(plaintext: bytes, b: Buffer) returns (r: MergeResult)
    requires Sound(b)
    ensures r == MergeFrames(plaintext, b)
  {
    hide FrameEnd, WriteBytes, Whole, VarintAt;
    var buffer := b;
    var off := 0;
    assert plaintext[0..] == plaintext;
    while off < |plaintext|
      invariant off <= |plaintext| && Sound(buffer)
      invariant MergeFrames(plaintext, b) == MergeFrames(plaintext[off..], buffer)
      decreases |plaintext| - off
    {
      var end := FrameEnd(plaintext, off);
      ghost var rest := plaintext[off..];
      if end.None? {
        FrameCutNone(plaintext, off);
        return MergeResult(buffer, false);
      }
      FrameCut(plaintext, off);
      var f := plaintext[off..end.value];
      assert rest[..end.value - off] == f && rest[end.value - off..] == plaintext[end.value..];
      off := end.value;
      if !IsCrypto(f) {
        continue;
      }
      var s := SegmentOf(f);
      if s.End() > MAX_STREAM {
        return MergeResult(buffer, false);
      }
      var w := WriteBytesLoop(Extend(buffer, s.End()), s.offset, s.data);
      if !w.ok {
        return w;
      }
      buffer := w.buffer;
    }
    return MergeResult(buffer, true);
  }

  // ---- the contiguous prefix ----------------------------------------------

  function ContiguousEnd(covered: seq<bool>): (end: nat)
    ensures end <= |covered|
    ensures forall i :: 0 <= i < end ==> covered[i]
    ensures end < |covered| ==> !covered[end]
  {
    if covered == [] || !covered[0] then 0 else 1 + ContiguousEnd(covered[1..])
  }

  function ContiguousStream(b: Buffer): (s: bytes)
    requires Sound(b)
  {
    b.stream[..ContiguousEnd(b.covered)]
  }

  method ContiguousCryptoStream(b: Buffer) returns (s: bytes)
    requires Sound(b)
    ensures s == ContiguousStream(b)
  {
    var end := 0;
    while end < |b.covered| && b.covered[end]
      invariant end <= |b.covered|
      invariant forall i :: 0 <= i < end ==> b.covered[i]
    {
      end := end + 1;
    }
    var spec := ContiguousEnd(b.covered);
    assert end == spec;
    return b.stream[..end];
  }

  /** The contiguous prefix never shrinks and never changes, whether a merge succeeds or not. */
  lemma ContiguousGrows(p: bytes, b: Buffer)
    requires Sound(b)
    ensures ContiguousStream(b) <= ContiguousStream(MergeFrames(p, b).buffer)
  {
    MergeFramesGrows(p, b);
    var b' := MergeFrames(p, b).buffer;
    var n, n' := ContiguousEnd(b.covered), ContiguousEnd(b'.covered);
    assert forall i :: 0 <= i < n ==> b.covered[i] && b'.covered[i];
    assert n <= n';
  }

  // ---- extraction without a conflict check --------------------------------

  function Overwrite(stream: bytes, s: Segment): (r: bytes)
  {
    var e := if s.End() > |stream| then stream + Zeros(s.End() - |stream|) else stream;
    e[..s.offset] + s.data + e[s.End()..]
  }

  function OverwriteAll(stream: bytes, segs: seq<Segment>): (r: bytes)
    decreases |segs|
  {
    if segs == [] then stream else OverwriteAll(Overwrite(stream, segs[0]), segs[1..])
  }

  /** extractCryptoStream: later bytes simply replace earlier ones. */
  function ExtractCryptoStream(p: bytes): (r: Option<bytes>)
  {
    match PlainSegments(p)
    case None => None
    case Some(segs) => Some(OverwriteAll([], segs))
  }

  lemma MergeSegmentOverwrites(b: Buffer, s: Segment)
    requires Sound(b) && MergeSegment(b, s).ok
    ensures MergeSegment(b, s).buffer.stream == Overwrite(b.stream, s)
  {
    WriteBytesExact(Extend(b, s.End()), s.offset, s.data);
  }

  lemma {:induction false} MergeSegmentsOverwrite(b: Buffer, segs: seq<Segment>)
    requires Sound(b) && MergeSegments(b, segs).ok
    ensures MergeSegments(b, segs).buffer.stream == OverwriteAll(b.stream, segs)
    decreases |segs|
  {
    if segs != [] {
      MergeSegmentOverwrites(b, segs[0]);
      MergeSegmentsOverwrite(MergeSegment(b, segs[0]).buffer, segs[1..]);
    }
  }

  /** The last segment that covers a place, if one does. */
  function LastAt(segs: seq<Segment>, i: nat): (v: Option<byte>)
  {
    if segs == [] then None
    else if segs[|segs| - 1].Covers(i) then Some(segs[|segs| - 1].At(i))
    else LastAt(segs[..|segs| - 1], i)
  }

  /** What extraction gives whether or not segments disagree: at every place the byte of the last segment there, or zero. */
  lemma {:induction false} LastWins(segs: seq<Segment>)
    ensures var s := OverwriteAll([], segs);
      && |s| == MaxEnd(segs)
      && forall i :: 0 <= i < |s| ==> s[i] == match LastAt(segs, i) case None => 0 case Some(v) => v
  {
    if segs != [] {
      var k := |segs| - 1;
      LastWins(segs[..k]);
      OverwriteSnoc([], segs[..k], segs[k]);
      assert segs[..k] + [segs[k]] == segs;
      var before := OverwriteAll([], segs[..k]);
      forall i | 0 <= i < MaxEnd(segs)
        ensures Overwrite(before, segs[k])[i] == match LastAt(segs, i) case None => 0 case Some(v) => v
      {
        NoneBeyond(segs[..k], i);
      }
    }
  }

  lemma {:induction false} NoneBeyond(segs: seq<Segment>, i: nat)
    ensures i >= MaxEnd(segs) ==> LastAt(segs, i).None?
  {
    if segs != [] {
      NoneBeyond(segs[..|segs| - 1], i);
    }
  }

  lemma {:induction false} OverwriteSnoc(stream: bytes, segs: seq<Segment>, s: Segment)
    ensures OverwriteAll(stream, segs + [s]) == Overwrite(OverwriteAll(stream, segs), s)
    decreases |segs|
  {
    if segs == [] {
      assert [] + [s] == [s] && [s][1..] == [];
    } else {
      assert (segs + [s])[0] == segs[0] && (segs + [s])[1..] == segs[1..] + [s];
      OverwriteSnoc(Overwrite(stream, segs[0]), segs[1..], s);
    }
  }

  /** One merge from nothing succeeds exactly if extraction does and no two segments disagree; the streams are then the same. */
  lemma ExtractAgrees(p: bytes)
    ensures MergeFrames(p, EMPTY).ok
       <==> ExtractCryptoStream(p).Some? && Consistent(PlainSegments(p).value)
    ensures MergeFrames(p, EMPTY).ok ==> ExtractCryptoStream(p) == Some(MergeFrames(p, EMPTY).buffer.stream)
  {
    MergeFramesIsFold(p, EMPTY);
    hide PlainSegments;
    if PlainSegments(p).Some? {
      var segs := PlainSegments(p).value;
      MergeSegmentsExact(EMPTY, [], 0, segs);
      assert [] + segs == segs;
      if MergeSegments(EMPTY, segs).ok {
        MergeSegmentsOverwrite(EMPTY, segs);
      }
    }
  }
}
