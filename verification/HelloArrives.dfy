/** A ClientHello that arrives in pieces: exactly when its host name is heard, and what becomes of the flow that waits for it. */
module HelloArrives {
  import opened Bytes
  import opened PacketNumber
  import opened Reassembly
  import opened ClientHello
  import opened HelloShape
  import opened Packet
  import opened RewriterSteps
  import opened Collector
  import opened Arrivals
  import opened Pending
  import opened SessionManager

  // ---- pieces of a stream -------------------------------------------------

  /** Every segment is a stretch of the stream. */
  ghost predicate Stretches(segs: seq<Segment>, stream: bytes) {
    forall s :: s in segs ==> s.End() <= |stream| && s.data == stream[s.offset..s.End()]
  }

  ghost predicate Covered(segs: seq<Segment>, stream: bytes) {
    forall i :: 0 <= i < |stream| ==> CoveredBy(segs, i)
  }

  lemma StretchesAgree(segs: seq<Segment>, stream: bytes)
    requires Stretches(segs, stream)
    ensures Consistent(segs) && MaxEnd(segs) <= |stream|
  {
    forall s, t | s in segs && t in segs
      ensures Compatible(s, t)
    {
    }
    MaxEndIsMax(segs);
  }

  /** They merge; the buffer shows the stream up to the first byte that is missing. */
  lemma StretchesMerge(ps: seq<bytes>, stream: bytes)
    requires Acceptable(ps) && Stretches(AllSegments(ps), stream)
    ensures MergeAll(ps, EMPTY).ok
    ensures ContiguousStream(MergeAll(ps, EMPTY).buffer) <= stream
    ensures ContiguousStream(MergeAll(ps, EMPTY).buffer) == stream <==> Covered(AllSegments(ps), stream)
  {
    hide AllSegments, PlainSegments, MergeAll, Stretches, Represents, Consistent, ContiguousStream, MaxEnd, Covered;
    var segs := AllSegments(ps);
    StretchesAgree(segs, stream);
    MergeExact(ps);
    ShownSoFar(MergeAll(ps, EMPTY).buffer, segs, stream, MaxEnd(segs));
  }

  lemma ShownSoFar(b: Buffer, segs: seq<Segment>, stream: bytes, length: nat)
    requires Stretches(segs, stream) && Represents(b, segs, length) && length <= |stream|
    ensures ContiguousStream(b) <= stream
    ensures ContiguousStream(b) == stream <==> Covered(segs, stream)
  {
    var end := ContiguousEnd(b.covered);
    forall i | 0 <= i < end
      ensures b.stream[i] == stream[i] && CoveredBy(segs, i)
    {
      assert b.covered[i];
      var s :| s in segs && s.Covers(i);
      assert s.data[i - s.offset] == stream[i];
    }
    if end < |stream| {
      Marked(b, segs, length, end);
    }
  }

  lemma Marked(b: Buffer, segs: seq<Segment>, length: nat, i: nat)
    requires Represents(b, segs, length)
    ensures |b.covered| == length && (CoveredBy(segs, i) ==> i < length && b.covered[i])
  {
    if CoveredBy(segs, i) {
      var s :| s in segs && s.Covers(i);
      assert s.End() <= length;
    }
  }

  // ---- the host name ------------------------------------------------------

  /** A ClientHello with a host name in its first server_name extension. */
  ghost predicate Named(h: Hello, name: bytes) {
    ValidHello(h) && |Body(h)| < 0x100_0000 && name != [] && exists before, e, after ::
      h.extensions == before + [e] + after && NoServerName(before) && Names(e, name)
  }

  /** Nothing is heard while a byte of the ClientHello is missing; the name is heard as soon as none is. */
  lemma HeardWhenComplete(b: Buffer, h: Hello, name: bytes)
    requires Sound(b) && Named(h, name)
    requires ContiguousStream(b) <= PrintHello(h)
    ensures SniOf(b) == if ContiguousStream(b) == PrintHello(h) then name else []
  {
    hide ContiguousStream, SniHostNameRange, ClientHelloComplete, Body, ToBE;
    var s, m := ContiguousStream(b), PrintHello(h);
    if s == m {
      var before, e, after :| h.extensions == before + [e] + after && NoServerName(before) && Names(e, name);
      NameFound(h, before, e, after, name, []);
      assert m + [] == m;
      CompleteAtTheEnd(Body(h), [], 0);
    } else {
      assert s == m[..|s|];
      CompleteAtTheEnd(Body(h), [], |s|);
    }
  }

  // ---- the entry that waits -----------------------------------------------

  /** The payloads hold stretches of the ClientHello and nothing beyond what can be merged. */
  ghost predicate Carry(xs: seq<InitialDatagram>, h: Hello) {
    && |h.session| < 256 && |h.compression| < 256
    && Acceptable(Plaintexts(xs)) && Stretches(AllSegments(Plaintexts(xs)), PrintHello(h))
  }

  ghost predicate WholeHello(xs: seq<InitialDatagram>, h: Hello)
    requires Carry(xs, h)
  {
    Covered(AllSegments(Plaintexts(xs)), PrintHello(h))
  }

  /** An entry that has taken in the datagrams of this flight, the last of them at that time. */
  ghost predicate HoldsFlight(c: Crypto, st: PendingState, xs: seq<InitialDatagram>, version: nat, dcid: bytes, bound: nat, last: int)
    requires Lawful(c) && OneFlight(xs, version, dcid, bound)
  {
    && HoldsPackets(c, st.packets, xs)
    && st.updated == (if xs == [] then None else Some(last))
    && MergeAll(Plaintexts(xs), EMPTY) == MergeResult(st.collector.buffer, true) && Sound(st.collector.buffer)
    && st.collector.expected <= bound
    && (st.collector.version == 0 || (st.collector.version == version && st.collector.dcid == dcid))
  }

  /** Every datagram under its own number. */
  ghost predicate HoldsPackets(c: Crypto, packets: seq<PendingPacket>, xs: seq<InitialDatagram>)
    requires Lawful(c) && forall k :: 0 <= k < |xs| ==> Sendable(xs[k])
  {
    |packets| == |xs| && forall k :: 0 <= k < |xs| ==> packets[k] == PendingPacket(xs[k].pn, Wire(c, xs[k]))
  }

  lemma OnePacketMore(c: Crypto, packets: seq<PendingPacket>, xs: seq<InitialDatagram>, i: InitialDatagram)
    requires Lawful(c) && (forall k :: 0 <= k < |xs| ==> Sendable(xs[k])) && Sendable(i)
    requires HoldsPackets(c, packets, xs)
    ensures forall k :: 0 <= k < |xs + [i]| ==> Sendable((xs + [i])[k])
    ensures HoldsPackets(c, packets + [PendingPacket(i.pn, Wire(c, i))], xs + [i])
  {
    hide Sendable, Wire, Lawful;
  }

  lemma NothingMerged()
    ensures MergeAll([], EMPTY) == MergeResult(EMPTY, true)
  {
  }

  /** Before the first datagram. */
  lemma EmptyHolds(c: Crypto, version: nat, dcid: bytes, bound: nat, last: int)
    requires Lawful(c)
    ensures HoldsFlight(c, NO_DATAGRAMS, [], version, dcid, bound, last)
  {
    NothingMerged();
    assert Plaintexts([]) == [];
  }

  lemma {:induction false} MergeAllSnoc(ps: seq<bytes>, p: bytes, b: Buffer)
    requires Sound(b)
    ensures MergeAll(ps + [p], b) == if MergeAll(ps, b).ok then MergeFrames(p, MergeAll(ps, b).buffer) else MergeAll(ps, b)
  {
    hide MergeFrames;
    if ps == [] {
      assert [] + [p] == [p] && [p][1..] == [];
    } else {
      assert (ps + [p])[0] == ps[0] && (ps + [p])[1..] == ps[1..] + [p];
      if MergeFrames(ps[0], b).ok {
        MergeAllSnoc(ps[1..], p, MergeFrames(ps[0], b).buffer);
      }
    }
  }

  /** One more datagram of the flight is accepted, under its number, and the name is heard exactly if nothing is missing. */
  lemma NextIsHeard(c: Crypto, st: PendingState, xs: seq<InitialDatagram>, i: InitialDatagram, version: nat, dcid: bytes, bound: nat,
                    last: int, h: Hello, name: bytes)
    requires Lawful(c) && OneFlight(xs + [i], version, dcid, bound) && OneFlight(xs, version, dcid, bound)
    requires HoldsFlight(c, st, xs, version, dcid, bound, last) && Named(h, name) && Carry(xs + [i], h)
    ensures Sendable(i)
    ensures var a := AddDatagram(c, st.collector, Wire(c, i));
      && a.found == Some(Heard(if WholeHello(xs + [i], h) then name else [], i.pn))
      && MergeAll(Plaintexts(xs + [i]), EMPTY) == MergeResult(a.state.buffer, true)
      && a.state.expected <= bound && a.state.version == version && a.state.dcid == dcid
  {
    hide AddDatagram, MergeFrames, MergeAll, Wire, Sendable, Quiet, Decodes, SniOf, Pow256, Lawful, Acceptable, Stretches, AllSegments,
      Covered, ContiguousStream, PrintHello, Plaintexts, Named;
    assert (xs + [i])[|xs|] == i;
    SendableParts(i);
    DecodedInFlight(i.pn, i.pnLen, st.collector.expected, bound);
    DatagramArrives(c, st.collector, i);
    PlaintextsSnoc(xs, i);
    MergeAllSnoc(Plaintexts(xs), i.plaintext, EMPTY);
    StretchesMerge(Plaintexts(xs + [i]), PrintHello(h));
    HeardWhenComplete(MergeAll(Plaintexts(xs + [i]), EMPTY).buffer, h, name);
  }

  lemma PlaintextsSnoc(xs: seq<InitialDatagram>, i: InitialDatagram)
    ensures Plaintexts(xs + [i]) == Plaintexts(xs) + [i.plaintext]
  {
  }

  /** The entry with this datagram in it holds the longer flight. */
  lemma JoinedHolds(c: Crypto, st: PendingState, xs: seq<InitialDatagram>, i: InitialDatagram, version: nat, dcid: bytes, bound: nat,
                    last: int, h: Hello, name: bytes, now: int, st': PendingState)
    requires Lawful(c) && OneFlight(xs + [i], version, dcid, bound) && OneFlight(xs, version, dcid, bound)
    requires HoldsFlight(c, st, xs, version, dcid, bound, last) && Named(h, name) && Carry(xs + [i], h)
    requires Sendable(i) && Joined(c, st, Wire(c, i), now, st')
    ensures HoldsFlight(c, st', xs + [i], version, dcid, bound, now)
  {
    NextIsHeard(c, st, xs, i, version, dcid, bound, last, h, name);
    FlightSends(xs, version, dcid, bound);
    OnePacketMore(c, st.packets, xs, i);
    hide AddDatagram, MergeAll, Wire, Sendable, Quiet, Lawful, Carry, Named, OneFlight, Plaintexts, HoldsPackets;
  }

  lemma FlightSends(xs: seq<InitialDatagram>, version: nat, dcid: bytes, bound: nat)
    requires OneFlight(xs, version, dcid, bound)
    ensures forall k :: 0 <= k < |xs| ==> Sendable(xs[k])
  {
    hide Sendable, Quiet;
  }
}
