/** What a run leaves of the handshake: the packets that reach the server reassemble as the client's own. */
module RunReassembly {
  import opened Bytes
  import opened Varint
  import opened PacketNumber
  import opened Framing
  import opened Reassembly
  import opened ClientHello
  import opened Splitting
  import opened Packet
  import opened Datagram
  import opened Rewriter
  import opened RewriterSteps
  import opened Run
  import opened Coalesced
  import opened AckSafety

  // ---- payloads with the same stream --------------------------------------

  /** Some segment has byte v at place i. */
  ghost predicate Gives(segs: seq<Segment>, i: nat, v: byte) {
    exists s :: s in segs && s.Covers(i) && s.At(i) == v
  }

  /** The same bytes at the same places, and the same reach. */
  ghost predicate SameStream(a: seq<Segment>, b: seq<Segment>) {
    && MaxEnd(a) == MaxEnd(b)
    && forall i: nat, v: byte :: Gives(a, i, v) <==> Gives(b, i, v)
  }

  /** The payload parses, and none of its frames runs to the end of the packet. */
  ghost predicate ClosedPayload(p: bytes) {
    Frames(p).Some? && Closed(Frames(p).value)
  }

  ghost predicate AllParse(ps: seq<bytes>) {
    forall p :: p in ps ==> Frames(p).Some?
  }

  /** All CRYPTO segments of payloads that parse. */
  ghost function Segments(ps: seq<bytes>): (segs: seq<Segment>)
    requires AllParse(ps)
  {
    if ps == [] then [] else CryptoSegments(Frames(ps[0]).value) + Segments(ps[1..])
  }

  /** All frames but PADDING and CRYPTO, in order. */
  ghost function Others(ps: seq<bytes>): (fs: seq<bytes>)
    requires AllParse(ps)
  {
    if ps == [] then [] else OtherFrames(Frames(ps[0]).value) + Others(ps[1..])
  }

  lemma {:induction false} Joins(ps: seq<bytes>, qs: seq<bytes>)
    requires AllParse(ps) && AllParse(qs)
    ensures AllParse(ps + qs)
    ensures Segments(ps + qs) == Segments(ps) + Segments(qs)
    ensures Others(ps + qs) == Others(ps) + Others(qs)
  {
    hide Frames, Whole, CryptoSegments, OtherFrames;
    if ps == [] {
      assert ps + qs == qs;
      assert [] + Segments(qs) == Segments(qs) && [] + Others(qs) == Others(qs);
    } else {
      var p, rest := ps[0], ps[1..];
      Joins(rest, qs);
      assert (ps + qs)[0] == p && (ps + qs)[1..] == rest + qs;
      var segs, os := CryptoSegments(Frames(p).value), OtherFrames(Frames(p).value);
      assert segs + (Segments(rest) + Segments(qs)) == segs + Segments(rest) + Segments(qs);
      assert os + (Others(rest) + Others(qs)) == os + Others(rest) + Others(qs);
    }
  }

  lemma GivesAppend(a: seq<Segment>, b: seq<Segment>, i: nat, v: byte)
    ensures Gives(a + b, i, v) <==> Gives(a, i, v) || Gives(b, i, v)
  {
  }

  lemma SameAppend(a: seq<Segment>, a': seq<Segment>, b: seq<Segment>, b': seq<Segment>)
    requires SameStream(a, a') && SameStream(b, b')
    ensures SameStream(a + b, a' + b')
  {
    hide Gives;
    MaxEndAppend(a, b);
    MaxEndAppend(a', b');
    forall i: nat, v: byte
      ensures Gives(a + b, i, v) <==> Gives(a' + b', i, v)
    {
      GivesAppend(a, b, i, v);
      GivesAppend(a', b', i, v);
    }
  }

  /** A buffer tells which bytes the segments it represents give. */
  lemma BufferGives(buffer: Buffer, segs: seq<Segment>, length: nat, i: nat, v: byte)
    requires Represents(buffer, segs, length)
    ensures Gives(segs, i, v) <==> i < length && buffer.covered[i] && buffer.stream[i] == v
  {
    if Gives(segs, i, v) {
      var s :| s in segs && s.Covers(i) && s.At(i) == v;
      assert s.End() <= length;
    }
  }

  lemma OneBuffer(buffer: Buffer, a: seq<Segment>, b: seq<Segment>, length: nat)
    requires Represents(buffer, a, length) && Represents(buffer, b, length)
    requires MaxEnd(a) == MaxEnd(b)
    ensures SameStream(a, b)
  {
    hide Gives, Represents;
    forall i: nat, v: byte
      ensures Gives(a, i, v) <==> Gives(b, i, v)
    {
      BufferGives(buffer, a, length, i, v);
      BufferGives(buffer, b, length, i, v);
    }
  }

  /** No place has two bytes. */
  ghost predicate SingleValued(segs: seq<Segment>) {
    forall i: nat, v: byte, v': byte :: Gives(segs, i, v) && Gives(segs, i, v') ==> v == v'
  }

  lemma ConsistentIsSingleValued(segs: seq<Segment>)
    ensures Consistent(segs) <==> SingleValued(segs)
  {
    if Consistent(segs) {
      forall i: nat, v: byte, v': byte | Gives(segs, i, v) && Gives(segs, i, v')
        ensures v == v'
      {
        var s :| s in segs && s.Covers(i) && s.At(i) == v;
        var t :| t in segs && t.Covers(i) && t.At(i) == v';
        assert Compatible(s, t);
      }
    }
    if SingleValued(segs) {
      forall s, t | s in segs && t in segs
        ensures Compatible(s, t)
      {
        forall i: nat | s.Covers(i) && t.Covers(i)
          ensures s.At(i) == t.At(i)
        {
          assert Gives(segs, i, s.At(i)) && Gives(segs, i, t.At(i));
        }
      }
    }
  }

  lemma SameConsistent(a: seq<Segment>, b: seq<Segment>)
    requires SameStream(a, b)
    ensures Consistent(a) <==> Consistent(b)
  {
    hide Gives, Consistent;
    ConsistentIsSingleValued(a);
    ConsistentIsSingleValued(b);
  }

  lemma SameBuffer(x: Buffer, y: Buffer, a: seq<Segment>, b: seq<Segment>, length: nat)
    requires Represents(x, a, length) && Represents(y, b, length) && SameStream(a, b)
    ensures x == y
  {
    Lengths(x, a, length);
    Lengths(y, b, length);
    hide Gives, Represents;
    forall i: nat | i < length
      ensures x.covered[i] == y.covered[i] && x.stream[i] == y.stream[i]
    {
      BufferGives(x, a, length, i, x.stream[i]);
      BufferGives(y, b, length, i, x.stream[i]);
      BufferGives(x, a, length, i, y.stream[i]);
      BufferGives(y, b, length, i, y.stream[i]);
      UncoveredIsZero(x, a, length, i);
      UncoveredIsZero(y, b, length, i);
    }
  }

  lemma Lengths(b: Buffer, segs: seq<Segment>, length: nat)
    requires Represents(b, segs, length)
    ensures |b.stream| == |b.covered| == length
  {
  }

  lemma UncoveredIsZero(b: Buffer, segs: seq<Segment>, length: nat, i: nat)
    requires Represents(b, segs, length) && i < length
    ensures i < |b.stream| == |b.covered| && (!b.covered[i] ==> b.stream[i] == 0)
  {
  }

  /** Payloads that parse are acceptable exactly if their segments stay within the limit. */
  lemma {:induction false} AcceptableReach(ps: seq<bytes>)
    requires AllParse(ps)
    ensures Acceptable(ps) <==> MaxEnd(Segments(ps)) <= MAX_STREAM
    ensures Acceptable(ps) ==> AllSegments(ps) == Segments(ps)
  {
    hide Frames, PlainSegments, CryptoSegments;
    if ps != [] {
      var p, rest := ps[0], ps[1..];
      AcceptableReach(rest);
      SegmentsWithin(p);
      assert Acceptable(ps) <==> PlainSegments(p).Some? && Acceptable(rest);
      MaxEndAppend(CryptoSegments(Frames(p).value), Segments(rest));
    }
  }

  /** Two lists of payloads with the same stream reassemble alike. */
  lemma SameStreamReassembles(ps: seq<bytes>, qs: seq<bytes>)
    requires AllParse(ps) && AllParse(qs) && SameStream(Segments(ps), Segments(qs))
    ensures SameReassembly(ps, qs)
  {
    hide Frames, MergeAll, Represents, Consistent, Segments, AllSegments, Acceptable, Gives;
    AcceptableReach(ps);
    AcceptableReach(qs);
    MergeExact(ps);
    MergeExact(qs);
    SameConsistent(Segments(ps), Segments(qs));
    if MergeAll(ps, EMPTY).ok {
      SameBuffer(MergeAll(ps, EMPTY).buffer, MergeAll(qs, EMPTY).buffer, Segments(ps), Segments(qs), MaxEnd(Segments(ps)));
    }
  }

  // ---- what a receiver reads ----------------------------------------------

  /** All Initial packets of these datagrams. */
  ghost function AllInitials(outs: seq<bytes>): (ps: seq<bytes>) {
    if outs == [] then [] else InitialsIn(outs[0]) + AllInitials(outs[1..])
  }

  /** Some receiver whose expectation decodes the number of t reads content a from this packet. */
  ghost predicate ReadAs(c: Crypto, dcid: bytes, packet: bytes, t: Content, a: Content) {
    exists expected: nat :: Decodes(t.pn, t.pnLen, expected) && ReadPacket(c, dcid, false, packet, expected) == Some(a)
  }

  /** Contents read packet by packet, where the true ones are ts; packets that nobody can read are passed over. */
  ghost predicate ReadOff(c: Crypto, dcid: bytes, ps: seq<bytes>, ts: seq<Content>, got: seq<Content>)
    decreases |ps|
  {
    if ps == [] then ts == [] && got == []
    else if Readable(c, dcid, ps[0]) then
      && ts != [] && got != [] && ReadAs(c, dcid, ps[0], ts[0], got[0])
      && ReadOff(c, dcid, ps[1..], ts[1..], got[1..])
    else ReadOff(c, dcid, ps[1..], ts, got)
  }

  /** The datagrams sent for an event. */
  ghost function Outs(c: Crypto, st: RewriterState, e: Event): (outs: seq<bytes>) {
    if e.ClientInitial? || e.ClientPassed? then ClientStep(c, st, e.data).datagrams else []
  }

  ghost function Emitted(st: RewriterState, i: InitialDatagram): (ts: seq<Content>)
    requires 1 <= i.pnLen <= 4
    ensures |ts| == |Emits(st, i)|
  {
    seq(|Emits(st, i)|, k requires 0 <= k < |Emits(st, i)| => ContentOf(Emits(st, i)[k]))
  }

  /** The packets sent for an event: those the rewriter makes, and those that pass as they are. */
  ghost function Sources(st: RewriterState, e: Event): (ts: seq<Content>) {
    match e
    case ClientInitial(_, i, more) => (if 1 <= i.pnLen <= 4 then Emitted(st, i) else []) + more
    case ClientPassed(_, more) => more
    case _ => []
  }

  ghost predicate EventRead(c: Crypto, w: World, e: Event, got: seq<Content>) {
    ReadOff(c, w.dcid, AllInitials(Outs(c, w.rw, e)), Sources(w.rw, e), got)
  }

  // ---- what passes as it is -----------------------------------------------

  /** Packets that pass are read as the client made them. */
  lemma {:induction false} PassedArrive(c: Crypto, dcid: bytes, ps: seq<bytes>, more: seq<Content>, got: seq<Content>)
    requires Contain(c, dcid, ps, more) && ReadOff(c, dcid, ps, more, got)
    ensures got == more
    decreases |ps|
  {
    hide ReadPacket, Decodes;
    if ps != [] {
      if Readable(c, dcid, ps[0]) {
        ReadIsIt(c, dcid, ps[0], more[0], got[0]);
        PassedArrive(c, dcid, ps[1..], more[1..], got[1..]);
        assert got == [got[0]] + got[1..] && more == [more[0]] + more[1..];
      } else {
        PassedArrive(c, dcid, ps[1..], more, got);
      }
    }
  }

  lemma ReadIsIt(c: Crypto, dcid: bytes, packet: bytes, t: Content, a: Content)
    requires Yields(c, dcid, packet, t) && ReadAs(c, dcid, packet, t, a)
    ensures a == t
  {
    hide ReadPacket, Decodes;
    var there: nat :| ReadPacket(c, dcid, false, packet, there) == Some(t);
    var here: nat :| Decodes(t.pn, t.pnLen, here) && ReadPacket(c, dcid, false, packet, here) == Some(a);
    ReadAlike(c, dcid, false, packet, there, here);
  }

  // ---- what the rewriter makes --------------------------------------------

  /** A packet with zero padding. */
  ghost predicate IsPaddedTo(t: Content, a: Content) {
    exists padding: nat :: a == t.(plaintext := t.plaintext + Zeros(padding))
  }

  /** The k-th datagram sent: its first packet is readable, and read as the listed one with padding; then its suffix. */
  lemma EmittedArrives(c: Crypto, w: World, data: bytes, i: InitialDatagram, k: nat)
    requires Lawful(c) && ClientSends(c, w, data, i) && 1 <= i.pnLen <= 4 && k < |Emits(w.rw, i)|
    ensures var out := ClientStep(c, w.rw, data).datagrams;
      && |out| == |Emits(w.rw, i)|
      && InitialsIn(out[k]) == [PacketIn(out[k])] + InitialsIn(Emits(w.rw, i)[k].suffix)
      && Readable(c, w.dcid, PacketIn(out[k]))
      && forall a :: ReadAs(c, w.dcid, PacketIn(out[k]), ContentOf(Emits(w.rw, i)[k]), a) ==>
           IsPaddedTo(ContentOf(Emits(w.rw, i)[k]), a)
  {
    SendsParts(c, w, data, i);
    EmittedDecodes(w.rw, i, k);
    EmitsHeader(w.rw, i, k);
    hide ClientStep, Emits, ClientSends, Decodes, ReadPacket, InitialsIn, PacketIn, Reads, IsPaddedTo, Sendable;
    var e := Emits(w.rw, i)[k];
    var out := ClientStep(c, w.rw, data).datagrams;
    var padding := EmittedRead(c, w, data, i, k, e.pn);
    forall a | ReadAs(c, w.dcid, PacketIn(out[k]), ContentOf(e), a)
      ensures IsPaddedTo(ContentOf(e), a)
    {
      var expected: nat :| Decodes(e.pn, e.pnLen, expected) && ReadPacket(c, w.dcid, false, PacketIn(out[k]), expected) == Some(a);
      var padding := EmittedRead(c, w, data, i, k, expected);
      PaddedContent(e, a, padding);
    }
  }

  lemma PaddedContent(e: InitialDatagram, a: Content, padding: nat)
    requires a == ContentOf(e.(plaintext := e.plaintext + Zeros(padding)))
    ensures IsPaddedTo(ContentOf(e), a)
  {
    assert a == ContentOf(e).(plaintext := ContentOf(e).plaintext + Zeros(padding));
  }

  lemma EmitsHeader(st: RewriterState, i: InitialDatagram, k: nat)
    requires 1 <= i.pnLen <= 4 && k < |Emits(st, i)|
    ensures Emits(st, i)[k].header == i.header
  {
    hide SplitInitialCryptoFrames, SecondPNLen;
  }

  lemma EmittedRead(c: Crypto, w: World, data: bytes, i: InitialDatagram, k: nat, expected: nat) returns (padding: nat)
    requires Lawful(c) && ClientSends(c, w, data, i) && 1 <= i.pnLen <= 4 && k < |Emits(w.rw, i)| && i.header.dcid == w.dcid
    requires Emits(w.rw, i)[k].header == i.header
    requires Decodes(Emits(w.rw, i)[k].pn, Emits(w.rw, i)[k].pnLen, expected)
    ensures var out := ClientStep(c, w.rw, data).datagrams;
      var e := Emits(w.rw, i)[k];
      && |out| == |Emits(w.rw, i)|
      && InitialsIn(out[k]) == [PacketIn(out[k])] + InitialsIn(e.suffix)
      && ReadPacket(c, w.dcid, false, PacketIn(out[k]), expected)
         == Some(ContentOf(e.(plaintext := e.plaintext + Zeros(padding))))
  {
    hide ClientStep, Emits, ClientSends, Decodes, ReadPacket, InitialsIn, PacketIn, Reads;
    padding := NumbersReachTheWire(c, w, data, i, k, expected);
    var e := Emits(w.rw, i)[k];
    FirstAndRest(c, w.dcid, false, ClientStep(c, w.rw, data).datagrams[k], expected,
                 e.(plaintext := e.plaintext + Zeros(padding)));
  }

  /** The packets behind one that reads. */
  lemma FirstArrives(c: Crypto, dcid: bytes, p: bytes, ps: seq<bytes>, t: Content, ts: seq<Content>, got: seq<Content>)
    requires Readable(c, dcid, p) && ReadOff(c, dcid, [p] + ps, [t] + ts, got)
    ensures got != [] && ReadAs(c, dcid, p, t, got[0]) && ReadOff(c, dcid, ps, ts, got[1..])
  {
    hide ReadAs, Readable;
    assert ([p] + ps)[1..] == ps && ([t] + ts)[1..] == ts;
  }

  /** What is read for one client datagram: the emitted packets with padding, then those behind as they are. */
  ghost predicate Delivered(st: RewriterState, i: InitialDatagram, more: seq<Content>, got: seq<Content>)
    requires 1 <= i.pnLen <= 4
  {
    var n := |Emits(st, i)|;
    && |got| == n + |more| && got[n..] == more
    && forall k :: 0 <= k < n ==> IsPaddedTo(ContentOf(Emits(st, i)[k]), got[k])
  }

  lemma InitialDelivered(c: Crypto, w: World, data: bytes, i: InitialDatagram, more: seq<Content>, got: seq<Content>)
    requires Lawful(c) && ClientSends(c, w, data, i) && Contain(c, w.dcid, InitialsIn(i.suffix), more)
    requires EventRead(c, w, ClientInitial(data, i, more), got)
    ensures 1 <= i.pnLen <= 4 && Delivered(w.rw, i, more, got)
  {
    SendsParts(c, w, data, i);
    EmitsShape(w.rw, i);
    hide *;
    PacketsOf(c, w, data, i, more, got);
    var ps, ts := SentPackets(c, w, data, i), Emitted(w.rw, i);
    EachArrives(c, w, data, i);
    FirstsArrive(c, w.dcid, ps, InitialsIn(i.suffix), ts, more, got);
    var n := |ts|;
    PassedArrive(c, w.dcid, InitialsIn(i.suffix), more, got[n..]);
    IntoDelivered(c, w, data, i, more, got);
  }

  /** The emitted packets, one at the head of each datagram sent. */
  ghost function SentPackets(c: Crypto, w: World, data: bytes, i: InitialDatagram): (ps: seq<bytes>)
    requires 1 <= i.pnLen <= 4
    ensures |ps| == |Emits(w.rw, i)|
  {
    seq(|Emits(w.rw, i)|, k requires 0 <= k < |Emits(w.rw, i)| =>
      if k < |ClientStep(c, w.rw, data).datagrams| then PacketIn(ClientStep(c, w.rw, data).datagrams[k]) else [])
  }

  /** All Initial packets sent for a client Initial are these, then those that stood behind it. */
  lemma AllPackets(c: Crypto, w: World, data: bytes, i: InitialDatagram)
    requires Lawful(c) && ClientSends(c, w, data, i) && 1 <= i.pnLen <= 4
    ensures AllInitials(ClientStep(c, w.rw, data).datagrams) == SentPackets(c, w, data, i) + InitialsIn(i.suffix)
  {
    hide *;
    EmitsShape(w.rw, i);
    NoInitials();
    PacketAt(c, w, data, i, 0);
    PacketAt(c, w, data, i, |Emits(w.rw, i)| - 1);
    HeadsThenRest(ClientStep(c, w.rw, data).datagrams, SentPackets(c, w, data, i), InitialsIn(i.suffix));
  }

  lemma HeadsThenRest(outs: seq<bytes>, heads: seq<bytes>, further: seq<bytes>)
    requires 1 <= |outs| == |heads| <= 2
    requires InitialsIn(outs[|outs| - 1]) == [heads[|outs| - 1]] + further
    requires |outs| == 2 ==> InitialsIn(outs[0]) == [heads[0]] + []
    ensures AllInitials(outs) == heads + further
  {
    hide InitialsIn, AllInitials;
    if |outs| == 1 {
      OneOut(outs, heads[0], further);
      assert heads == [heads[0]];
    } else {
      TwoOut(outs, heads[0], heads[1], further);
      assert heads + further == [heads[0]] + ([heads[1]] + further);
    }
  }

  lemma PacketAt(c: Crypto, w: World, data: bytes, i: InitialDatagram, k: nat)
    requires Lawful(c) && ClientSends(c, w, data, i) && 1 <= i.pnLen <= 4 && k < |Emits(w.rw, i)|
    ensures var out := ClientStep(c, w.rw, data).datagrams;
      && |out| == |Emits(w.rw, i)| && SentPackets(c, w, data, i)[k] == PacketIn(out[k])
      && InitialsIn(out[k]) == [PacketIn(out[k])] + InitialsIn(Emits(w.rw, i)[k].suffix)
      && Readable(c, w.dcid, PacketIn(out[k]))
  {
    hide ClientStep, Emits, ClientSends, InitialsIn, PacketIn, ReadAs, Readable, IsPaddedTo;
    EmittedArrives(c, w, data, i, k);
  }

  lemma PacketsOf(c: Crypto, w: World, data: bytes, i: InitialDatagram, more: seq<Content>, got: seq<Content>)
    requires Lawful(c) && ClientSends(c, w, data, i) && 1 <= i.pnLen <= 4
    requires EventRead(c, w, ClientInitial(data, i, more), got)
    ensures ReadOff(c, w.dcid, SentPackets(c, w, data, i) + InitialsIn(i.suffix), Emitted(w.rw, i) + more, got)
  {
    hide ClientStep, Emits, ClientSends, InitialsIn, ReadOff, AllInitials, SentPackets, Emitted;
    AllPackets(c, w, data, i);
  }

  /** Each is readable, and read as the listed one with padding. */
  ghost predicate Arrive(c: Crypto, dcid: bytes, ps: seq<bytes>, ts: seq<Content>) {
    && |ps| == |ts|
    && forall k :: 0 <= k < |ps| ==>
         && Readable(c, dcid, ps[k])
         && forall a :: ReadAs(c, dcid, ps[k], ts[k], a) ==> IsPaddedTo(ts[k], a)
  }

  lemma EachArrives(c: Crypto, w: World, data: bytes, i: InitialDatagram)
    requires Lawful(c) && ClientSends(c, w, data, i) && 1 <= i.pnLen <= 4
    ensures Arrive(c, w.dcid, SentPackets(c, w, data, i), Emitted(w.rw, i))
  {
    hide ClientStep, Emits, ClientSends, InitialsIn, PacketIn, ReadAs, Readable, IsPaddedTo;
    forall k | 0 <= k < |Emits(w.rw, i)|
      ensures Readable(c, w.dcid, SentPackets(c, w, data, i)[k])
      ensures forall a :: ReadAs(c, w.dcid, SentPackets(c, w, data, i)[k], Emitted(w.rw, i)[k], a) ==>
        IsPaddedTo(Emitted(w.rw, i)[k], a)
    {
      EmittedArrives(c, w, data, i, k);
    }
  }

  lemma {:induction false} FirstsArrive(c: Crypto, dcid: bytes, ps: seq<bytes>, qs: seq<bytes>, ts: seq<Content>, us: seq<Content>,
                                        got: seq<Content>)
    requires Arrive(c, dcid, ps, ts) && ReadOff(c, dcid, ps + qs, ts + us, got)
    ensures |got| >= |ts| && ReadOff(c, dcid, qs, us, got[|ts|..])
    ensures forall k :: 0 <= k < |ts| ==> IsPaddedTo(ts[k], got[k])
    decreases |ps|
  {
    hide ReadAs, Readable, IsPaddedTo, ReadOff;
    if ps == [] {
      assert ps + qs == qs && ts + us == us && got[0..] == got;
    } else {
      assert ps + qs == [ps[0]] + (ps[1..] + qs) && ts + us == [ts[0]] + (ts[1..] + us);
      FirstArrives(c, dcid, ps[0], ps[1..] + qs, ts[0], ts[1..] + us, got);
      FirstsArrive(c, dcid, ps[1..], qs, ts[1..], us, got[1..]);
      assert got[1..][|ts| - 1..] == got[|ts|..];
      forall k | 0 <= k < |ts|
        ensures IsPaddedTo(ts[k], got[k])
      {
        if k > 0 {
          assert ts[1..][k - 1] == ts[k] && got[1..][k - 1] == got[k];
        }
      }
    }
  }

  lemma IntoDelivered(c: Crypto, w: World, data: bytes, i: InitialDatagram, more: seq<Content>, got: seq<Content>)
    requires 1 <= i.pnLen <= 4 && |got| >= |Emitted(w.rw, i)| && got[|Emitted(w.rw, i)|..] == more
    requires forall k :: 0 <= k < |Emitted(w.rw, i)| ==> IsPaddedTo(Emitted(w.rw, i)[k], got[k])
    ensures Delivered(w.rw, i, more, got)
  {
    hide Emits, IsPaddedTo;
    forall k | 0 <= k < |Emits(w.rw, i)|
      ensures IsPaddedTo(ContentOf(Emits(w.rw, i)[k]), got[k])
    {
      assert Emitted(w.rw, i)[k] == ContentOf(Emits(w.rw, i)[k]);
    }
  }

  lemma EmitsShape(st: RewriterState, i: InitialDatagram)
    requires 1 <= i.pnLen <= 4
    ensures var es := Emits(st, i);
      (|es| == 1 && es[0].suffix == i.suffix) || (|es| == 2 && es[0].suffix == [] && es[1].suffix == i.suffix)
  {
    hide SplitInitialCryptoFrames;
  }

  lemma OneOut(outs: seq<bytes>, p: bytes, further: seq<bytes>)
    requires |outs| == 1 && InitialsIn(outs[0]) == [p] + further
    ensures AllInitials(outs) == [p] + further
  {
    hide InitialsIn;
    assert outs[1..] == [];
    assert [p] + further + [] == [p] + further;
  }

  lemma TwoOut(outs: seq<bytes>, p: bytes, q: bytes, further: seq<bytes>)
    requires |outs| == 2 && InitialsIn(outs[0]) == [p] + [] && InitialsIn(outs[1]) == [q] + further
    ensures AllInitials(outs) == [p] + ([q] + further)
  {
    hide InitialsIn;
    OneOut(outs[1..], q, further);
  }

  lemma PassedDelivered(c: Crypto, w: World, data: bytes, more: seq<Content>, got: seq<Content>)
    requires Passes(c, w.rw, data) && Contain(c, w.dcid, InitialsIn(data), more)
    requires EventRead(c, w, ClientPassed(data, more), got)
    ensures got == more
  {
    hide ClientStep, InitialsIn, Contain, ReadOff;
    var outs := [data];
    assert outs[1..] == [] && InitialsIn(data) + [] == InitialsIn(data);
    assert AllInitials(outs) == InitialsIn(outs[0]) + AllInitials(outs[1..]);
    PassedArrive(c, w.dcid, InitialsIn(data), more, got);
  }

  // ---- a receiver has something to read -----------------------------------

  /** Contents read packet by packet under these expectations, one for each packet that can be read. */
  ghost predicate ReadWith(c: Crypto, dcid: bytes, ps: seq<bytes>, expected: seq<nat>, got: seq<Content>)
    decreases |ps|
  {
    if ps == [] then expected == [] && got == []
    else if Readable(c, dcid, ps[0]) then
      && expected != [] && got != [] && ReadPacket(c, dcid, false, ps[0], expected[0]) == Some(got[0])
      && ReadWith(c, dcid, ps[1..], expected[1..], got[1..])
    else ReadWith(c, dcid, ps[1..], expected, got)
  }

  ghost predicate AllDecode(ts: seq<Content>, expected: seq<nat>) {
    |expected| == |ts| && forall k :: 0 <= k < |ts| ==> Decodes(ts[k].pn, ts[k].pnLen, expected[k])
  }

  lemma {:induction false} PassedReads(c: Crypto, dcid: bytes, ps: seq<bytes>, more: seq<Content>, expected: seq<nat>)
    requires Contain(c, dcid, ps, more) && AllDecode(more, expected)
    ensures ReadWith(c, dcid, ps, expected, more) && ReadOff(c, dcid, ps, more, more)
    decreases |ps|
  {
    hide ReadPacket, Decodes;
    if ps != [] {
      if Readable(c, dcid, ps[0]) {
        var there: nat :| ReadPacket(c, dcid, false, ps[0], there) == Some(more[0]);
        ReadAlike(c, dcid, false, ps[0], there, expected[0]);
        assert ReadAs(c, dcid, ps[0], more[0], more[0]);
        PassedReads(c, dcid, ps[1..], more[1..], expected[1..]);
      } else {
        PassedReads(c, dcid, ps[1..], more, expected);
      }
    }
  }

  lemma OneMoreRead(c: Crypto, dcid: bytes, p: bytes, ps: seq<bytes>, t: Content, ts: seq<Content>, e: nat, es: seq<nat>,
                    a: Content, got: seq<Content>)
    requires Readable(c, dcid, p) && Decodes(t.pn, t.pnLen, e) && ReadPacket(c, dcid, false, p, e) == Some(a)
    requires ReadWith(c, dcid, ps, es, got) && ReadOff(c, dcid, ps, ts, got)
    ensures ReadWith(c, dcid, [p] + ps, [e] + es, [a] + got) && ReadOff(c, dcid, [p] + ps, [t] + ts, [a] + got)
  {
    hide ReadPacket, Decodes, Readable;
    assert ReadAs(c, dcid, p, t, a);
    assert ([p] + ps)[1..] == ps && ([t] + ts)[1..] == ts && ([e] + es)[1..] == es && ([a] + got)[1..] == got;
  }

  /** A receiver that decodes the numbers does read every packet of the connection that is sent for an event. */
  lemma ReceiverReads(c: Crypto, w: World, e: Event, w': World, expected: seq<nat>) returns (got: seq<Content>)
    requires Lawful(c) && Next(c, w, e, w') && AllDecode(Sources(w.rw, e), expected)
    ensures ReadWith(c, w.dcid, AllInitials(Outs(c, w.rw, e)), expected, got) && EventRead(c, w, e, got)
  {
    hide ClientStep, ServerStep, Emits, ClientSends, InitialsIn, PacketIn, Contain, ReadOff, ReadWith, ReadAs, Readable, Sendable,
      ServerReadable, Opens, Emitted, Numbers, Decodes, AfterInitial, AfterPassed, LocateQUICInitial, AllInitials;
    match e
    case ClientInitial(data, i, more) =>
      got := InitialReads(c, w, data, i, more, expected);
    case ClientPassed(data, more) =>
      OneDatagram(data);
      PassedReads(c, w.dcid, InitialsIn(data), more, expected);
      got := more;
    case _ =>
      NothingSent(c, w.dcid);
      assert expected == [];
      got := [];
  }

  lemma OneDatagram(data: bytes)
    ensures AllInitials([data]) == InitialsIn(data)
  {
    hide InitialsIn;
    assert [data][1..] == [] && InitialsIn(data) + [] == InitialsIn(data);
    assert AllInitials([data]) == InitialsIn([data][0]) + AllInitials([data][1..]);
  }

  lemma NothingSent(c: Crypto, dcid: bytes)
    ensures AllInitials([]) == [] && ReadWith(c, dcid, [], [], []) && ReadOff(c, dcid, [], [], [])
  {
  }

  lemma InitialReads(c: Crypto, w: World, data: bytes, i: InitialDatagram, more: seq<Content>, expected: seq<nat>)
    returns (got: seq<Content>)
    requires Lawful(c) && ClientSends(c, w, data, i) && Contain(c, w.dcid, InitialsIn(i.suffix), more)
    requires AllDecode(Sources(w.rw, ClientInitial(data, i, more)), expected)
    ensures ReadWith(c, w.dcid, AllInitials(ClientStep(c, w.rw, data).datagrams), expected, got)
    ensures EventRead(c, w, ClientInitial(data, i, more), got)
  {
    SendsParts(c, w, data, i);
    hide *;
    AllPackets(c, w, data, i);
    var n := |Emitted(w.rw, i)|;
    SplitDecode(Emitted(w.rw, i), more, expected, Sources(w.rw, ClientInitial(data, i, more)));
    PassedReads(c, w.dcid, InitialsIn(i.suffix), more, expected[n..]);
    var firsts := EachRead(c, w, data, i, expected[..n]);
    FirstsRead(c, w.dcid, SentPackets(c, w, data, i), InitialsIn(i.suffix), Emitted(w.rw, i), more, expected[..n], expected[n..], firsts,
               more);
    got := firsts + more;
    IntoEventRead(c, w, data, i, more, expected, n, got);
  }

  lemma SplitDecode(ts: seq<Content>, more: seq<Content>, expected: seq<nat>, all: seq<Content>)
    requires AllDecode(all, expected) && all == ts + more
    ensures |expected| >= |ts| && AllDecode(ts, expected[..|ts|]) && AllDecode(more, expected[|ts|..])
  {
    hide Decodes;
    forall k | 0 <= k < |ts|
      ensures Decodes(ts[k].pn, ts[k].pnLen, expected[k])
    {
      assert all[k] == ts[k];
    }
    forall k | 0 <= k < |more|
      ensures Decodes(more[k].pn, more[k].pnLen, expected[|ts|..][k])
    {
      assert all[|ts| + k] == more[k];
    }
  }

  lemma IntoEventRead(c: Crypto, w: World, data: bytes, i: InitialDatagram, more: seq<Content>, expected: seq<nat>, n: nat,
                      got: seq<Content>)
    requires 1 <= i.pnLen <= 4 && n <= |expected|
    requires AllInitials(ClientStep(c, w.rw, data).datagrams) == SentPackets(c, w, data, i) + InitialsIn(i.suffix)
    requires var ps := SentPackets(c, w, data, i) + InitialsIn(i.suffix);
      && ReadWith(c, w.dcid, ps, expected[..n] + expected[n..], got)
      && ReadOff(c, w.dcid, ps, Emitted(w.rw, i) + more, got)
    ensures ReadWith(c, w.dcid, AllInitials(ClientStep(c, w.rw, data).datagrams), expected, got)
    ensures EventRead(c, w, ClientInitial(data, i, more), got)
  {
    hide ClientStep, Emits, InitialsIn, ReadOff, ReadWith, AllInitials, SentPackets, Emitted;
    assert expected[..n] + expected[n..] == expected;
  }

  /** What each emitted packet is read as. */
  ghost predicate EachWith(c: Crypto, dcid: bytes, ps: seq<bytes>, expected: seq<nat>, got: seq<Content>) {
    && |ps| == |expected| == |got|
    && forall k :: 0 <= k < |ps| ==>
         Readable(c, dcid, ps[k]) && ReadPacket(c, dcid, false, ps[k], expected[k]) == Some(got[k])
  }

  lemma EachRead(c: Crypto, w: World, data: bytes, i: InitialDatagram, expected: seq<nat>) returns (got: seq<Content>)
    requires Lawful(c) && ClientSends(c, w, data, i) && 1 <= i.pnLen <= 4 && AllDecode(Emitted(w.rw, i), expected)
    ensures EachWith(c, w.dcid, SentPackets(c, w, data, i), expected, got)
  {
    hide ClientStep, Emits, ClientSends, InitialsIn, PacketIn, ReadAs, Readable, ReadPacket, Decodes, SentPackets, Emitted;
    got := [];
    while |got| < |expected|
      invariant |got| <= |expected|
      invariant forall k :: 0 <= k < |got| ==>
        && Readable(c, w.dcid, SentPackets(c, w, data, i)[k])
        && ReadPacket(c, w.dcid, false, SentPackets(c, w, data, i)[k], expected[k]) == Some(got[k])
    {
      var r := ReadAt(c, w, data, i, |got|, expected[|got|]);
      got := got + [r];
    }
  }

  lemma ReadAt(c: Crypto, w: World, data: bytes, i: InitialDatagram, k: nat, e: nat) returns (r: Content)
    requires Lawful(c) && ClientSends(c, w, data, i) && 1 <= i.pnLen <= 4 && k < |Emits(w.rw, i)|
    requires Decodes(Emitted(w.rw, i)[k].pn, Emitted(w.rw, i)[k].pnLen, e)
    ensures Readable(c, w.dcid, SentPackets(c, w, data, i)[k])
    ensures ReadPacket(c, w.dcid, false, SentPackets(c, w, data, i)[k], e) == Some(r)
  {
    SendsParts(c, w, data, i);
    hide ClientStep, Emits, ClientSends, InitialsIn, PacketIn, ReadAs, Readable, ReadPacket, Decodes, IsPaddedTo, Sendable,
      SentPackets, Zeros;
    assert Emitted(w.rw, i)[k] == ContentOf(Emits(w.rw, i)[k]);
    PacketAt(c, w, data, i, k);
    EmitsHeader(w.rw, i, k);
    var packet := Emits(w.rw, i)[k];
    var padding := EmittedRead(c, w, data, i, k, e);
    r := ContentOf(packet.(plaintext := packet.plaintext + Zeros(padding)));
  }

  lemma {:induction false} FirstsRead(c: Crypto, dcid: bytes, ps: seq<bytes>, qs: seq<bytes>, ts: seq<Content>, us: seq<Content>,
                                      es: seq<nat>, fs: seq<nat>, got: seq<Content>, more: seq<Content>)
    requires EachWith(c, dcid, ps, es, got) && AllDecode(ts, es)
    requires ReadWith(c, dcid, qs, fs, more) && ReadOff(c, dcid, qs, us, more)
    ensures ReadWith(c, dcid, ps + qs, es + fs, got + more) && ReadOff(c, dcid, ps + qs, ts + us, got + more)
    decreases |ps|
  {
    hide ReadPacket, Readable, ReadOff, ReadWith, Decodes;
    if ps == [] {
      assert ps + qs == qs && ts + us == us && es + fs == fs && got + more == more;
    } else {
      FirstsRead(c, dcid, ps[1..], qs, ts[1..], us, es[1..], fs, got[1..], more);
      OneMoreRead(c, dcid, ps[0], ps[1..] + qs, ts[0], ts[1..] + us, es[0], es[1..] + fs, got[0], got[1..] + more);
      assert ps + qs == [ps[0]] + (ps[1..] + qs) && ts + us == [ts[0]] + (ts[1..] + us);
      assert es + fs == [es[0]] + (es[1..] + fs) && got + more == [got[0]] + (got[1..] + more);
    }
  }

  // ---- one client datagram ------------------------------------------------

  ghost function PayloadsOf(cs: seq<Content>): (ps: seq<bytes>)
    ensures |ps| == |cs|
  {
    seq(|cs|, k requires 0 <= k < |cs| => cs[k].plaintext)
  }

  /** Zero padding behind closed frames adds neither stream nor other frames. */
  lemma PaddingIsEmpty(p: bytes, padding: nat)
    requires ClosedPayload(p)
    ensures AllParse([p + Zeros(padding)])
    ensures Segments([p + Zeros(padding)]) == CryptoSegments(Frames(p).value)
    ensures Others([p + Zeros(padding)]) == OtherFrames(Frames(p).value)
  {
    ConcatOfFrames(p);
    hide Frames, Whole, CryptoSegments, OtherFrames, Zeros;
    var fs := Frames(p).value;
    PadFramesAreZeros(padding);
    ConcatAppend(fs, PadFrames(padding));
    var gs := fs + PadFrames(padding);
    PaddedFrames(fs, padding);
    FramesOfConcat(gs);
    CryptoSegmentsAppend(fs, PadFrames(padding));
    OtherFramesAppend(fs, PadFrames(padding));
    OneOf(p + Zeros(padding));
    assert CryptoSegments(fs) + [] == CryptoSegments(fs) && OtherFrames(fs) + [] == OtherFrames(fs);
  }

  lemma PaddedFrames(fs: seq<bytes>, padding: nat)
    requires Closed(fs)
    ensures WellFramed(fs + PadFrames(padding))
  {
    PadFramesAreZeros(padding);
    hide Whole;
  }

  lemma OneOf(p: bytes)
    requires Frames(p).Some?
    ensures AllParse([p]) && Segments([p]) == CryptoSegments(Frames(p).value) && Others([p]) == OtherFrames(Frames(p).value)
  {
    hide Frames, CryptoSegments, OtherFrames;
    assert [p][1..] == [];
    var segs, os := CryptoSegments(Frames(p).value), OtherFrames(Frames(p).value);
    assert segs + [] == segs && os + [] == os;
  }

  /** The two padded fragments of a payload have its stream and its other frames. */
  lemma FragmentsSame(p: bytes, padFirst: nat, padSecond: nat)
    requires ClosedPayload(p) && |p| < MAX_VARINT && SplitInitialCryptoFrames(p).Some?
    ensures var f := SplitInitialCryptoFrames(p).value;
      var ps := [f.first + Zeros(padFirst), f.second + Zeros(padSecond)];
      && AllParse(ps) && SameStream(Segments(ps), CryptoSegments(Frames(p).value))
      && Others(ps) == OtherFrames(Frames(p).value)
  {
    hide Frames, Whole, Closed, SplitInitialCryptoFrames, Carries, WholeStream, CryptoSegments, OtherFrames, SameStream, Segments,
      Others, AllParse, SniHostNameRange, Zeros;
    var stream, k := SplitPreserves(p, padFirst, padSecond);
    var f := SplitInitialCryptoFrames(p).value;
    TwoCarry(f.first + Zeros(padFirst), f.second + Zeros(padSecond), Segment(0, stream[..k]), Segment(k, stream[k..]),
             OtherFrames(Frames(p).value));
    HalvesSame(CryptoSegments(Frames(p).value), stream, k);
  }

  lemma TwoCarry(one: bytes, two: bytes, a: Segment, b: Segment, os: seq<bytes>)
    requires Carries(one, a, os) && Carries(two, b, [])
    ensures AllParse([one, two]) && Segments([one, two]) == [a, b] && Others([one, two]) == os
  {
    hide Frames, CryptoSegments, OtherFrames, Segments, Others, AllParse;
    OneOf(one);
    OneOf(two);
    Joins([one], [two]);
    assert [one] + [two] == [one, two] && [a] + [b] == [a, b] && os + [] == os;
  }

  /** The two halves of a payload's stream are its stream. */
  lemma HalvesSame(segs: seq<Segment>, stream: bytes, k: nat)
    requires WholeStream(segs) == Some(stream) && 0 < k < |stream|
    ensures SameStream([Segment(0, stream[..k]), Segment(k, stream[k..])], segs)
  {
    hide WholeStream, Represents, Consistent, SameStream;
    HalvesRepresent(stream, k);
    WholeStreamExact(segs);
    OneBuffer(Buffer(stream, AllSeen(|stream|)), [Segment(0, stream[..k]), Segment(k, stream[k..])], segs, |stream|);
  }

  /** What is read of the emitted packets has the stream and the other frames of the client's payload. */
  lemma EmittedSame(st: RewriterState, i: InitialDatagram, got: seq<Content>)
    requires 1 <= i.pnLen <= 4 && ClosedPayload(i.plaintext) && |i.plaintext| < MAX_VARINT && |got| == |Emits(st, i)|
    requires forall k :: 0 <= k < |got| ==> IsPaddedTo(ContentOf(Emits(st, i)[k]), got[k])
    ensures AllParse(PayloadsOf(got)) && SameStream(Segments(PayloadsOf(got)), CryptoSegments(Frames(i.plaintext).value))
    ensures Others(PayloadsOf(got)) == OtherFrames(Frames(i.plaintext).value)
  {
    hide Frames, SplitInitialCryptoFrames, ClosedPayload, CryptoSegments, OtherFrames, Gives, Segments, Others, AllParse, MaxEnd,
      Zeros, SecondPNLen, Whole;
    var f := SplitInitialCryptoFrames(i.plaintext);
    var ps := PayloadsOf(got);
    var a := PaddingOf(ContentOf(Emits(st, i)[0]), got[0]);
    if (!st.initialized || i.pn == st.firstClientPN) && f.Some? {
      var b := PaddingOf(ContentOf(Emits(st, i)[1]), got[1]);
      assert ps == [f.value.first + Zeros(a), f.value.second + Zeros(b)];
      FragmentsSame(i.plaintext, a, b);
    } else {
      assert ps == [i.plaintext + Zeros(a)];
      PaddingIsEmpty(i.plaintext, a);
    }
  }

  lemma PaddingOf(t: Content, a: Content) returns (padding: nat)
    requires IsPaddedTo(t, a)
    ensures a.plaintext == t.plaintext + Zeros(padding)
  {
    padding :| a == t.(plaintext := t.plaintext + Zeros(padding));
  }

  /** The payloads of the client's packets in an event, of the rewritten one and of those that pass. */
  ghost function OwnPayloads(e: Event): (ps: seq<bytes>) {
    match e
    case ClientInitial(_, i, more) => [i.plaintext] + PayloadsOf(more)
    case ClientPassed(_, more) => PayloadsOf(more)
    case _ => []
  }

  ghost predicate AllClosed(ps: seq<bytes>) {
    forall p :: p in ps ==> ClosedPayload(p)
  }

  /** What is read for an event has the stream and the other frames of what the client put into it. */
  lemma EventArrives(c: Crypto, w: World, e: Event, w': World, got: seq<Content>)
    requires Lawful(c) && Next(c, w, e, w') && EventRead(c, w, e, got) && AllClosed(OwnPayloads(e))
    ensures AllParse(PayloadsOf(got)) && AllParse(OwnPayloads(e))
    ensures SameStream(Segments(PayloadsOf(got)), Segments(OwnPayloads(e)))
    ensures Others(PayloadsOf(got)) == Others(OwnPayloads(e))
  {
    ClosedParse(OwnPayloads(e));
    hide ClientStep, ServerStep, Emits, ClientSends, InitialsIn, PacketIn, Contain, ReadOff, Readable, ServerReadable, Opens,
      Emitted, Numbers, AfterInitial, AfterPassed, LocateQUICInitial, EventRead, AllParse, SameStream, Segments, Others,
      ClosedPayload, Passes, Outs, Sources;
    match e
    case ClientInitial(data, i, more) =>
      InitialDelivered(c, w, data, i, more, got);
      InitialArrives(c, w, data, i, more, got);
    case ClientPassed(data, more) =>
      PassedDelivered(c, w, data, more, got);
      SameAsItself(Segments(PayloadsOf(more)));
    case _ =>
      NothingGot(c, w, e, got);
      SameAsItself(Segments([]));
  }

  lemma NothingGot(c: Crypto, w: World, e: Event, got: seq<Content>)
    requires !e.ClientInitial? && !e.ClientPassed? && EventRead(c, w, e, got)
    ensures got == [] && PayloadsOf(got) == []
  {
  }

  lemma ClosedParse(ps: seq<bytes>)
    requires AllClosed(ps)
    ensures AllParse(ps)
  {
    hide Frames, Closed;
  }

  lemma SameAsItself(segs: seq<Segment>)
    ensures SameStream(segs, segs)
  {
  }

  lemma InitialArrives(c: Crypto, w: World, data: bytes, i: InitialDatagram, more: seq<Content>, got: seq<Content>)
    requires ClientSends(c, w, data, i) && 1 <= i.pnLen <= 4 && Delivered(w.rw, i, more, got)
    requires AllClosed([i.plaintext] + PayloadsOf(more)) && AllParse([i.plaintext] + PayloadsOf(more))
    ensures AllParse(PayloadsOf(got))
    ensures SameStream(Segments(PayloadsOf(got)), Segments([i.plaintext] + PayloadsOf(more)))
    ensures Others(PayloadsOf(got)) == Others([i.plaintext] + PayloadsOf(more))
  {
    SendsParts(c, w, data, i);
    HeadClosed(i.plaintext, PayloadsOf(more));
    TailParses([i.plaintext], PayloadsOf(more));
    SplitDelivered(w.rw, i, more, got);
    hide *;
    var firsts := got[..|Emits(w.rw, i)|];
    EmittedSame(w.rw, i, firsts);
    OneParses(i.plaintext);
    OneOf(i.plaintext);
    JoinSame(PayloadsOf(firsts), [i.plaintext], PayloadsOf(more));
  }

  lemma HeadClosed(p: bytes, ps: seq<bytes>)
    requires AllClosed([p] + ps)
    ensures ClosedPayload(p)
  {
    hide ClosedPayload;
    assert p in [p] + ps;
  }

  lemma SplitDelivered(st: RewriterState, i: InitialDatagram, more: seq<Content>, got: seq<Content>)
    requires 1 <= i.pnLen <= 4 && Delivered(st, i, more, got)
    ensures var n := |Emits(st, i)|;
      && n <= |got| && PayloadsOf(got) == PayloadsOf(got[..n]) + PayloadsOf(more)
      && forall k :: 0 <= k < n ==> IsPaddedTo(ContentOf(Emits(st, i)[k]), got[..n][k])
  {
    hide Emits, IsPaddedTo;
    var n := |Emits(st, i)|;
    assert got == got[..n] + more;
  }

  lemma JoinSame(ps: seq<bytes>, qs: seq<bytes>, rs: seq<bytes>)
    requires AllParse(ps) && AllParse(qs) && AllParse(rs)
    requires SameStream(Segments(ps), Segments(qs)) && Others(ps) == Others(qs)
    ensures AllParse(ps + rs) && AllParse(qs + rs)
    ensures SameStream(Segments(ps + rs), Segments(qs + rs)) && Others(ps + rs) == Others(qs + rs)
  {
    hide AllParse, SameStream, Segments, Others;
    Joins(ps, rs);
    Joins(qs, rs);
    SameAsItself(Segments(rs));
    SameAppend(Segments(ps), Segments(qs), Segments(rs), Segments(rs));
  }

  lemma OneParses(p: bytes)
    requires ClosedPayload(p)
    ensures Frames(p).Some?
  {
  }

  lemma TailParses(ps: seq<bytes>, qs: seq<bytes>)
    requires AllParse(ps + qs)
    ensures AllParse(qs)
  {
    hide Frames;
    forall q | q in qs
      ensures Frames(q).Some?
    {
      assert q in ps + qs;
    }
  }

  // ---- whole runs ---------------------------------------------------------

  /** The payloads of the client's packets in the first k events. */
  ghost function ClientPayloads(es: seq<Event>, k: nat): (ps: seq<bytes>)
    requires k <= |es|
  {
    if k == 0 then [] else ClientPayloads(es, k - 1) + OwnPayloads(es[k - 1])
  }

  /** The contents read from what was sent for the first k events. */
  ghost function AllGot(got: seq<seq<Content>>, k: nat): (cs: seq<Content>)
    requires k <= |got|
  {
    if k == 0 then [] else AllGot(got, k - 1) + got[k - 1]
  }

  ghost predicate ClosedClient(es: seq<Event>) {
    forall k :: 0 <= k < |es| ==> AllClosed(OwnPayloads(es[k]))
  }

  ghost predicate RunRead(c: Crypto, ws: seq<World>, es: seq<Event>, got: seq<seq<Content>>) {
    |ws| == |es| + 1 && |got| == |es| && forall k :: 0 <= k < |es| ==> EventRead(c, ws[k], es[k], got[k])
  }

  lemma {:induction false} RunKeepsStream(c: Crypto, ws: seq<World>, es: seq<Event>, got: seq<seq<Content>>, k: nat)
    requires Lawful(c) && IsRun(c, ws, es) && ClosedClient(es) && RunRead(c, ws, es, got) && k <= |es|
    ensures AllParse(PayloadsOf(AllGot(got, k))) && AllParse(ClientPayloads(es, k))
    ensures SameStream(Segments(PayloadsOf(AllGot(got, k))), Segments(ClientPayloads(es, k)))
    ensures Others(PayloadsOf(AllGot(got, k))) == Others(ClientPayloads(es, k))
  {
    hide EventRead, AllClosed, Frames, Segments, Others, AllParse, SameStream, Next, OwnPayloads;
    if k == 0 {
      NothingYet();
    } else {
      RunKeepsStream(c, ws, es, got, k - 1);
      var before, own := AllGot(got, k - 1), OwnPayloads(es[k - 1]);
      EventArrives(c, ws[k - 1], es[k - 1], ws[k], got[k - 1]);
      assert PayloadsOf(AllGot(got, k)) == PayloadsOf(before) + PayloadsOf(got[k - 1]);
      Joins(PayloadsOf(before), PayloadsOf(got[k - 1]));
      Joins(ClientPayloads(es, k - 1), own);
      SameAppend(Segments(PayloadsOf(before)), Segments(ClientPayloads(es, k - 1)), Segments(PayloadsOf(got[k - 1])), Segments(own));
    }
  }

  lemma NothingYet()
    ensures AllParse([]) && SameStream(Segments([]), Segments([])) && Others([]) == Others([])
    ensures PayloadsOf([]) == []
  {
  }

  /**
   * The rewriter is transparent to the handshake. Take any point of any run whose client payloads have closed frames, and
   * any receiver that decodes the numbers it is sent. The payloads it reads from all Initial packets of all datagrams, in
   * any order of arrival, reassemble exactly if the client's own do, to the same stream with the same coverage; and in the
   * order they were sent they carry the same other frames.
   */
  lemma RunReassembles(c: Crypto, ws: seq<World>, es: seq<Event>, got: seq<seq<Content>>, k: nat, arrived: seq<bytes>)
    requires Lawful(c) && IsRun(c, ws, es) && ClosedClient(es) && RunRead(c, ws, es, got) && k <= |es|
    requires multiset(arrived) == multiset(PayloadsOf(AllGot(got, k)))
    ensures SameReassembly(arrived, ClientPayloads(es, k))
    ensures AllParse(PayloadsOf(AllGot(got, k))) && AllParse(ClientPayloads(es, k))
    ensures Others(PayloadsOf(AllGot(got, k))) == Others(ClientPayloads(es, k))
  {
    hide IsRun, ClosedClient, RunRead, Segments, Others, AllParse, SameStream, MergeAll;
    assert k <= |got| by {
      GotEach(c, ws, es, got);
    }
    RunKeepsStream(c, ws, es, got, k);
    SameStreamReassembles(PayloadsOf(AllGot(got, k)), ClientPayloads(es, k));
    MergeOrderIndependent(arrived, PayloadsOf(AllGot(got, k)));
  }

  lemma GotEach(c: Crypto, ws: seq<World>, es: seq<Event>, got: seq<seq<Content>>)
    requires RunRead(c, ws, es, got)
    ensures |got| == |es|
  {
  }
}
