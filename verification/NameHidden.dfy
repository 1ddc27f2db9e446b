/** What the rewriting is for: no packet that goes out under the first number, or for it, carries the whole host name. */
module NameHidden {
  import opened Bytes
  import opened Framing
  import opened Reassembly
  import opened ClientHello
  import opened Splitting
  import opened Packet
  import opened Rewriter
  import opened RewriterSteps
  import opened Run
  import opened Coalesced
  import opened AckSafety
  import opened RunReassembly

  /** A datagram with one Initial of the client under this number, some payload of which one stretch of stream is all CRYPTO. */
  ghost predicate SentWith(c: Crypto, d: bytes, i: InitialDatagram, pn: nat, s: Segment, others: seq<bytes>)
    requires Lawful(c)
  {
    exists pnLen: nat, plaintext :: CarriedBy(c, d, i.(pn := pn, pnLen := pnLen, plaintext := plaintext), s, others)
  }

  ghost predicate CarriedBy(c: Crypto, d: bytes, j: InitialDatagram, s: Segment, others: seq<bytes>)
    requires Lawful(c)
  {
    Sendable(j) && d == WireBytes(c, j, c.derive(j.header.version, j.header.dcid, false)) && Carries(j.plaintext, s, others)
  }

  /** Some byte of the name is not in this stretch. */
  ghost predicate Misses(s: Segment, name: Range) {
    exists p :: name.offset <= p < name.offset + name.length && !s.Covers(p)
  }

  lemma OneHalf(c: Crypto, d: bytes, e: InitialDatagram, n: nat, i: InitialDatagram, s: Segment, others: seq<bytes>)
    requires Lawful(c) && PaddedWith(c, d, e, ClientKeys(c, e.header), n)
    requires e == i.(pn := e.pn, pnLen := e.pnLen, plaintext := e.plaintext) && Carries(e.plaintext + Zeros(n), s, others)
    ensures SentWith(c, d, i, e.pn, s, others)
  {
    hide Sendable, WireBytes, Carries, Lawful;
    var j := e.(plaintext := e.plaintext + Zeros(n));
    assert j == i.(pn := e.pn, pnLen := e.pnLen, plaintext := j.plaintext);
    assert CarriedBy(c, d, j, s, others);
  }

  lemma HalvesMiss(stream: bytes, k: nat, name: Range)
    requires name.offset < k < name.offset + name.length <= |stream|
    ensures Misses(Segment(0, stream[..k]), name) && Misses(Segment(k, stream[k..]), name)
  {
    assert !Segment(0, stream[..k]).Covers(k);
    assert !Segment(k, stream[k..]).Covers(k - 1);
  }

  /**
   * The first packet of the connection, whenever it comes, goes out as two: under its number with the front of the stream
   * and all its other frames, under the next one with the rest of the stream; and either misses a byte of the host name.
   */
  lemma FirstIsSplit(c: Crypto, st: RewriterState, data: bytes, i: InitialDatagram) returns (stream: bytes, k: nat)
    requires Lawful(c) && ClientReadable(c, st, data, i) && ClosedPayload(i.plaintext)
    requires SplitInitialCryptoFrames(i.plaintext).Some? && (st.initialized ==> i.pn == st.firstClientPN)
    ensures WholeStream(CryptoSegments(Frames(i.plaintext).value)) == Some(stream) && k <= |stream|
    ensures var out := ClientStep(c, st, data).datagrams;
      var front, back := Segment(0, stream[..k]), Segment(k, stream[k..]);
      && |out| == 2
      && SentWith(c, out[0], i.(suffix := []), i.pn, front, OtherFrames(Frames(i.plaintext).value))
      && SentWith(c, out[1], i.(skipped := []), i.pn + 1, back, [])
      && SniHostNameRange(stream).Some? && Misses(front, SniHostNameRange(stream).value) && Misses(back, SniHostNameRange(stream).value)
  {
    hide ClientStep, SplitInitialCryptoFrames, PaddedWith, Frames, WholeStream, CryptoSegments, OtherFrames, SniHostNameRange,
      SentWith, Closed, Carries, SecondPNLen, Sendable, Reads, Misses, FragmentClientInitial;
    ReadableParts(c, st, data, i);
    ClientStepReduces(c, st, data, i);
    var keys := ClientKeys(c, i.header);
    FragmentEmission(c, i, keys);
    var split := SplitInitialCryptoFrames(i.plaintext).value;
    var out := ClientStep(c, st, data).datagrams;
    var e0 := i.(plaintext := split.first, suffix := []);
    var e1 := i.(plaintext := split.second, pn := i.pn + 1, pnLen := SecondPNLen(i.pn, i.pnLen), skipped := []);
    var n0: nat :| PaddedWith(c, out[0], e0, keys, n0);
    var n1: nat :| PaddedWith(c, out[1], e1, keys, n1);
    stream, k := SplitPreserves(i.plaintext, n0, n1);
    OneHalf(c, out[0], e0, n0, i.(suffix := []), Segment(0, stream[..k]), OtherFrames(Frames(i.plaintext).value));
    OneHalf(c, out[1], e1, n1, i.(skipped := []), Segment(k, stream[k..]), []);
    HalvesMiss(stream, k, SniHostNameRange(stream).value);
  }

  /** The same packet under the next number, with zero padding behind its payload. */
  ghost predicate Moved(c: Crypto, d: bytes, i: InitialDatagram, pnLen: nat)
    requires Lawful(c)
  {
    IsPadded(c, d, i.(pn := i.pn + 1, pnLen := pnLen), c.derive(i.header.version, i.header.dcid, false))
  }

  /** A later packet goes out whole, under the next number. */
  lemma LaterIsMoved(c: Crypto, st: RewriterState, data: bytes, i: InitialDatagram)
    requires Lawful(c) && ClientReadable(c, st, data, i) && st.initialized && i.pn > st.firstClientPN
    ensures var out := ClientStep(c, st, data).datagrams; |out| == 1 && exists pnLen: nat :: Moved(c, out[0], i, pnLen)
  {
    hide ClientStep, SplitInitialCryptoFrames, IsPadded, ClientReadable, ClientState, Lawful, SecondPNLen;
    ClientEmission(c, st, data, i);
    ReadableParts(c, st, data, i);
    assert Moved(c, ClientStep(c, st, data).datagrams[0], i, Emits(st, i)[0].pnLen);
  }

  /** An earlier one goes out as it came, and so does one that could not be split. */
  lemma OthersAsTheyCame(c: Crypto, st: RewriterState, data: bytes, i: InitialDatagram)
    requires Lawful(c) && ClientReadable(c, st, data, i)
    requires (st.initialized && i.pn < st.firstClientPN)
          || (SplitInitialCryptoFrames(i.plaintext).None? && (st.initialized ==> i.pn == st.firstClientPN))
    ensures ClientStep(c, st, data).datagrams == [data]
  {
    hide ClientStep, SplitInitialCryptoFrames, FragmentClientInitial, Sendable, Reads, Lawful, SecondPNLen;
    ReadableParts(c, st, data, i);
    ClientStepReduces(c, st, data, i);
    FragmentExactly(c, Concat(i.skipped), i.suffix, i.header, Decrypted(i.plaintext, i.pn, i.pnLen), ClientKeys(c, i.header));
  }

  /**
   * In every run: whatever has happened before, a packet under the number the rewriting started with goes out as two
   * packets, neither of which has the whole host name.
   */
  lemma NameNeverWhole(c: Crypto, ws: seq<World>, es: seq<Event>, k: nat) returns (stream: bytes, cut: nat)
    requires Lawful(c) && IsRun(c, ws, es) && k < |es| && es[k].ClientInitial?
    requires var i := es[k].i;
      i.pn == ws[k + 1].rw.firstClientPN && ClosedPayload(i.plaintext) && SplitInitialCryptoFrames(i.plaintext).Some?
    ensures var i, out := es[k].i, ClientStep(c, ws[k].rw, es[k].data).datagrams;
      && WholeStream(CryptoSegments(Frames(i.plaintext).value)) == Some(stream) && cut <= |stream| && |out| == 2
      && SentWith(c, out[0], i.(suffix := []), i.pn, Segment(0, stream[..cut]), OtherFrames(Frames(i.plaintext).value))
      && SentWith(c, out[1], i.(skipped := []), i.pn + 1, Segment(cut, stream[cut..]), [])
      && SniHostNameRange(stream).Some?
      && Misses(Segment(0, stream[..cut]), SniHostNameRange(stream).value)
      && Misses(Segment(cut, stream[cut..]), SniHostNameRange(stream).value)
  {
    hide ClientStep, SplitInitialCryptoFrames, Frames, WholeStream, CryptoSegments, OtherFrames, SniHostNameRange, SentWith, Closed,
      Misses, ClientReadable, ClientState, Contain, InitialsIn, Numbers, OwnPairs, OwnNumbers;
    var w, data, i := ws[k], es[k].data, es[k].i;
    assert Next(c, w, es[k], ws[k + 1]);
    ClientEmission(c, w.rw, data, i);
    ReadableParts(c, w.rw, data, i);
    ClientStateParts(w.rw, i);
    stream, cut := FirstIsSplit(c, w.rw, data, i);
  }
}
