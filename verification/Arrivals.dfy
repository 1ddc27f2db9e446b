/** A client's Initial datagrams in any order of arrival: what the collector makes of them. */
module Arrivals {
  import opened Bytes
  import opened Multisets
  import opened Varint
  import opened PacketNumber
  import opened Framing
  import opened Reassembly
  import opened ClientHello
  import opened Packet
  import opened Datagram
  import opened RewriterSteps
  import opened Collector

  // ---- one datagram -------------------------------------------------------

  /** Nothing more with a long header behind the Initial packet. */
  ghost predicate Quiet(suffix: bytes) {
    suffix == [] || suffix[0] < 0x80
  }

  lemma {:induction false} WalkSkips(c: Crypto, st: CollectorState, ps: seq<bytes>, rest: bytes)
    requires Sound(st.buffer) && SkippedPackets(ps)
    ensures WalkPackets(c, st, Concat(ps) + rest, NO_PN, false) == WalkPackets(c, st, rest, NO_PN, false)
    decreases |ps|
  {
    hide QuicLongPacketEnd, AddPacket;
    if ps == [] {
      assert [] + rest == rest;
    } else {
      var more := Concat(ps[1..]) + rest;
      assert Concat(ps) + rest == ps[0] + more;
      assert SkippedPacket(ps[0]);
      WalkSkipsOne(c, st, ps[0], more);
      WalkSkips(c, st, ps[1..], rest);
    }
  }

  lemma WalkSkipsOne(c: Crypto, st: CollectorState, p: bytes, rest: bytes)
    requires Sound(st.buffer) && SkippedPacket(p)
    ensures WalkPackets(c, st, p + rest, NO_PN, false) == WalkPackets(c, st, rest, NO_PN, false)
  {
    hide QuicLongPacketEnd, AddPacket;
    FirstByteHigh(p);
    LongPacketLocal(p, rest);
    assert p[..|p|] == p && (p + rest)[|p|..] == rest;
  }

  lemma WalkReads(c: Crypto, st: CollectorState, packet: bytes, rest: bytes)
    requires Sound(st.buffer) && Quiet(rest)
    requires QuicLongPacketEnd(packet) == Some(LongPacket(INITIAL, |packet|))
    ensures WalkPackets(c, st, packet + rest, NO_PN, false)
         == match AddPacket(c, st, packet)
            case Refused(next) => Stopped(next)
            case Merged(next, pn) => Walked(next, if pn < NO_PN then pn else NO_PN, true)
  {
    hide QuicLongPacketEnd, AddPacket;
    FirstByteHigh(packet);
    LongPacketLocal(packet, rest);
    var data := packet + rest;
    assert packet[..|packet|] == packet && data[|packet|..] == rest && data[..|packet|] == packet;
  }

  /** The state once a datagram is in: the connection, what is expected next, and its payload merged. */
  ghost function After(st: CollectorState, i: InitialDatagram): (next: CollectorState)
    requires Sound(st.buffer)
  {
    CollectorState(i.header.version, i.header.dcid, if i.pn >= st.expected then i.pn + 1 else st.expected,
                   MergeFrames(i.plaintext, st.buffer).buffer)
  }

  ghost function Keys(c: Crypto, i: InitialDatagram): (k: Packet.Keys) {
    c.derive(i.header.version, i.header.dcid, false)
  }

  ghost function Wire(c: Crypto, i: InitialDatagram): (d: bytes)
    requires Lawful(c) && Sendable(i)
  {
    WireBytes(c, i, Keys(c, i))
  }

  /** The client's packets are protected with the client's keys for the connection ID they bear. */
  lemma WireIs(c: Crypto, i: InitialDatagram)
    requires Lawful(c) && Sendable(i)
    ensures Wire(c, i) == WireBytes(c, i, c.derive(i.header.version, i.header.dcid, false))
  {
  }

  lemma PacketMerges(c: Crypto, st: CollectorState, packet: bytes, i: InitialDatagram)
    requires Sound(st.buffer) && SupportedVersion(i.header.version)
    requires st.version == 0 || (st.version == i.header.version && st.dcid == i.header.dcid)
    requires ParseInitialPacket(packet).Some? && ParseInitialPacket(packet).value.header == i.header
    requires DecryptInitial(c, packet, Keys(c, i), st.expected) == Some(Decrypted(i.plaintext, i.pn, i.pnLen))
    ensures AddPacket(c, st, packet)
         == if MergeFrames(i.plaintext, st.buffer).ok then Merged(After(st, i), i.pn) else Refused(After(st, i))
  {
    hide ParseInitialPacket, DecryptInitial, MergeFrames, SupportedVersion;
  }

  lemma PacketOnWire(c: Crypto, i: InitialDatagram, expected: nat) returns (packet: bytes)
    requires Lawful(c) && Sendable(i) && Decodes(i.pn, i.pnLen, expected)
    ensures SupportedVersion(i.header.version) && SkippedPackets(i.skipped) && i.pn < NO_PN
    ensures Wire(c, i) == Concat(i.skipped) + (packet + i.suffix)
    ensures QuicLongPacketEnd(packet) == Some(LongPacket(INITIAL, |packet|))
    ensures ParseInitialPacket(packet).Some? && ParseInitialPacket(packet).value.header == i.header
    ensures DecryptInitial(c, packet, Keys(c, i), expected) == Some(Decrypted(i.plaintext, i.pn, i.pnLen))
  {
    hide QuicLongPacketEnd, LocateQUICInitial, ParseInitialPacket, DecryptInitial, WireBytes, Decodes, Concat, SkippedPackets,
      Sendable, SupportedVersion, PacketIn, PacketBytes, Lawful;
    var data := Wire(c, i);
    packet := PacketIn(data);
    Received(c, i, Keys(c, i), expected);
    var skipped := LocateExact(data);
    assert data == Concat(i.skipped) + packet + i.suffix == Concat(i.skipped) + (packet + i.suffix);
    SendableParts(i);
  }

  lemma SendableParts(i: InitialDatagram)
    requires Sendable(i)
    ensures i.pn < MAX_PN && 1 <= i.pnLen <= 4 && SupportedVersion(i.header.version) && SkippedPackets(i.skipped)
  {
    hide SkippedPackets, SupportedVersion;
  }

  /** A datagram of the collector's connection is taken apart, decrypted and merged, and nothing else. */
  lemma DatagramArrives(c: Crypto, st: CollectorState, i: InitialDatagram)
    requires Lawful(c) && Sendable(i) && Quiet(i.suffix) && Sound(st.buffer)
    requires st.version == 0 || (st.version == i.header.version && st.dcid == i.header.dcid)
    requires Decodes(i.pn, i.pnLen, st.expected)
    ensures var m := MergeFrames(i.plaintext, st.buffer);
      AddDatagram(c, st, Wire(c, i)) == AddResult(After(st, i), if m.ok then Some(Heard(SniOf(m.buffer), i.pn)) else None)
  {
    hide QuicLongPacketEnd, LocateQUICInitial, ParseInitialPacket, DecryptInitial, MergeFrames, Wire, PacketIn,
      Decodes, SniOf, Concat, AddPacket, WalkPackets, Sendable, Quiet, SkippedPackets, SupportedVersion, Lawful;
    var packet := PacketOnWire(c, i, st.expected);
    WalkSkips(c, st, i.skipped, packet + i.suffix);
    WalkReads(c, st, packet, i.suffix);
    PacketMerges(c, st, packet, i);
  }

  // ---- any number of datagrams --------------------------------------------

  datatype Fed = Fed(state: CollectorState, ok: bool)

  /** The datagrams one after the other, up to the first that is refused. */
  function FeedAll(c: Crypto, st: CollectorState, ds: seq<bytes>): (f: Fed)
    requires Sound(st.buffer)
    ensures Sound(f.state.buffer)
    decreases |ds|
  {
    if ds == [] then Fed(st, true)
    else
      var r := AddDatagram(c, st, ds[0]);
      if r.found.Some? then FeedAll(c, r.state, ds[1..]) else Fed(r.state, false)
  }

  /** Datagrams of one connection whose numbers are decoded right whichever of them came before. */
  ghost predicate OneFlight(xs: seq<InitialDatagram>, version: nat, dcid: bytes, bound: nat) {
    forall k :: 0 <= k < |xs| ==>
      && Sendable(xs[k]) && Quiet(xs[k].suffix)
      && xs[k].header.version == version && xs[k].header.dcid == dcid
      && xs[k].pn < bound < Pow256(xs[k].pnLen) / 2
  }

  ghost function Wires(c: Crypto, xs: seq<InitialDatagram>): (ds: seq<bytes>)
    requires Lawful(c) && forall k :: 0 <= k < |xs| ==> Sendable(xs[k])
    ensures |ds| == |xs|
  {
    seq(|xs|, k requires 0 <= k < |xs| => Wire(c, xs[k]))
  }

  ghost function Plaintexts(xs: seq<InitialDatagram>): (ps: seq<bytes>)
    ensures |ps| == |xs|
  {
    seq(|xs|, k requires 0 <= k < |xs| => xs[k].plaintext)
  }

  lemma {:induction false} FlightMerges(c: Crypto, st: CollectorState, xs: seq<InitialDatagram>, version: nat, dcid: bytes, bound: nat)
    requires Lawful(c) && OneFlight(xs, version, dcid, bound)
    requires Sound(st.buffer) && st.expected <= bound
    requires st.version == 0 || (st.version == version && st.dcid == dcid)
    ensures var f := FeedAll(c, st, Wires(c, xs));
      && (f.ok <==> MergeAll(Plaintexts(xs), st.buffer).ok)
      && (f.ok ==> f.state.buffer == MergeAll(Plaintexts(xs), st.buffer).buffer)
    decreases |xs|
  {
    hide AddDatagram, MergeFrames, Wire, Sendable, Quiet, Decodes, SniOf, Pow256, Lawful;
    if xs != [] {
      var i := xs[0];
      SendableParts(i);
      DecodedInFlight(i.pn, i.pnLen, st.expected, bound);
      DatagramArrives(c, st, i);
      assert Wires(c, xs)[0] == Wire(c, i) && Plaintexts(xs)[0] == i.plaintext;
      assert Wires(c, xs)[1..] == Wires(c, xs[1..]) && Plaintexts(xs)[1..] == Plaintexts(xs[1..]);
      if MergeFrames(i.plaintext, st.buffer).ok {
        FlightMerges(c, After(st, i), xs[1..], version, dcid, bound);
      }
    }
  }

  lemma DecodedInFlight(pn: nat, pnLen: nat, expected: nat, bound: nat)
    requires 1 <= pnLen <= 4 && expected <= bound && pn < bound < Pow256(pnLen) / 2
    ensures Decodes(pn, pnLen, expected)
  {
    PowerValues();
    DecodeExact(pn, pnLen, expected);
  }

  /**
   * The order of arrival does not matter: a permutation of the datagrams is accepted or refused alike, and when accepted
   * leaves the same stream, so the same host name is found.
   */
  lemma ArrivalOrder(c: Crypto, xs: seq<InitialDatagram>, ys: seq<InitialDatagram>, version: nat, dcid: bytes, bound: nat)
    requires Lawful(c) && OneFlight(xs, version, dcid, bound) && multiset(xs) == multiset(ys)
    ensures forall k :: 0 <= k < |ys| ==> Sendable(ys[k])
    ensures var f, g := FeedAll(c, NEW, Wires(c, xs)), FeedAll(c, NEW, Wires(c, ys));
      && (f.ok <==> g.ok)
      && (f.ok ==> f.state.buffer == g.state.buffer && SniOf(f.state.buffer) == SniOf(g.state.buffer))
  {
    hide Sendable, Quiet, MergeAll, SniOf, FeedAll, Pow256;
    forall k | 0 <= k < |ys|
      ensures ys[k] in xs
    {
      assert ys[k] in multiset(ys);
    }
    assert OneFlight(ys, version, dcid, bound);
    FlightMerges(c, NEW, xs, version, dcid, bound);
    FlightMerges(c, NEW, ys, version, dcid, bound);
    SameImages((i: InitialDatagram) => i.plaintext, xs, ys, Plaintexts(xs), Plaintexts(ys));
    MergeOrderIndependent(Plaintexts(xs), Plaintexts(ys));
  }

  // ---- the host name ------------------------------------------------------

  /** Every segment is a stretch of the stream, and every byte of the stream is in one. */
  ghost predicate Pieces(segs: seq<Segment>, stream: bytes) {
    && (forall s :: s in segs ==> s.End() <= |stream| && s.data == stream[s.offset..s.End()])
    && (forall i :: 0 <= i < |stream| ==> CoveredBy(segs, i))
  }

  lemma PiecesAgree(segs: seq<Segment>, stream: bytes)
    requires Pieces(segs, stream)
    ensures Consistent(segs) && MaxEnd(segs) == |stream|
  {
    forall s, t | s in segs && t in segs
      ensures Compatible(s, t)
    {
    }
    MaxEndIsMax(segs);
    if |stream| > 0 {
      assert CoveredBy(segs, |stream| - 1);
    }
  }

  lemma PiecesFill(b: Buffer, segs: seq<Segment>, stream: bytes)
    requires Pieces(segs, stream) && Represents(b, segs, |stream|)
    ensures ContiguousStream(b) == stream
  {
    forall i | 0 <= i < |stream|
      ensures b.covered[i] && b.stream[i] == stream[i]
    {
      assert CoveredBy(segs, i);
      var s :| s in segs && s.Covers(i);
      assert s.data[i - s.offset] == stream[i];
    }
    assert ContiguousEnd(b.covered) == |stream|;
  }

  /** Segments cut from one stream merge, and the buffer then holds that stream. */
  lemma PiecesReassemble(ps: seq<bytes>, stream: bytes)
    requires Acceptable(ps) && Pieces(AllSegments(ps), stream)
    ensures MergeAll(ps, EMPTY).ok && ContiguousStream(MergeAll(ps, EMPTY).buffer) == stream
  {
    hide AllSegments, PlainSegments, MergeAll, Pieces, Represents, Consistent, ContiguousStream, MaxEnd;
    PiecesAgree(AllSegments(ps), stream);
    MergeExact(ps);
    PiecesFill(MergeAll(ps, EMPTY).buffer, AllSegments(ps), stream);
  }

  /**
   * From the wire to the name: whatever the order in which a ClientHello's pieces arrive, overlapping or repeated, every
   * datagram is accepted and in the end the stream is the ClientHello, so its host name is found.
   */
  lemma HostNameFound(c: Crypto, xs: seq<InitialDatagram>, version: nat, dcid: bytes, bound: nat, hello: bytes, r: Range)
    requires Lawful(c) && OneFlight(xs, version, dcid, bound)
    requires Acceptable(Plaintexts(xs)) && Pieces(AllSegments(Plaintexts(xs)), hello)
    requires ClientHelloComplete(hello) && SniHostNameRange(hello) == Some(r)
    ensures var f := FeedAll(c, NEW, Wires(c, xs));
      f.ok && ContiguousStream(f.state.buffer) == hello && SniOf(f.state.buffer) == hello[r.offset..r.offset + r.length]
  {
    hide OneFlight, Acceptable, Pieces, MergeAll, FeedAll, SniHostNameRange, ClientHelloComplete, AllSegments, Plaintexts;
    FlightMerges(c, NEW, xs, version, dcid, bound);
    PiecesReassemble(Plaintexts(xs), hello);
  }

  // ---- once found, never lost ---------------------------------------------

  /** A name found stays found: more of the stream changes neither the complete ClientHello nor the place of its name. */
  lemma NameStays(b: Buffer, b': Buffer)
    requires Sound(b) && Sound(b') && ContiguousStream(b) <= ContiguousStream(b')
    requires SniOf(b) != []
    ensures SniOf(b') == SniOf(b)
  {
    hide SniHostNameRange, ContiguousStream;
    var s, s' := ContiguousStream(b), ContiguousStream(b');
    assert s' == s + s'[|s|..];
    SniStable(s, s'[|s|..]);
    var r := SniHostNameRange(s).value;
    assert s'[r.offset..r.offset + r.length] == s[r.offset..r.offset + r.length];
  }

  /** An accepted packet of the same connection never loses or changes a name already found. */
  lemma NameSurvives(c: Crypto, st: CollectorState, packet: bytes)
    requires Sound(st.buffer) && SniOf(st.buffer) != []
    requires ParseInitialPacket(packet).Some? && For(st, ParseInitialPacket(packet).value.header) == st
    ensures SniOf(AddPacket(c, st, packet).state.buffer) == SniOf(st.buffer)
  {
    hide ParseInitialPacket, DecryptInitial, MergeFrames, SniOf, ContiguousStream;
    var h := ParseInitialPacket(packet).value.header;
    var keys := InitialSecrets(c, h.version, h.dcid, false);
    if keys.Some? && DecryptInitial(c, packet, keys.value, st.expected).Some? {
      var plaintext := DecryptInitial(c, packet, keys.value, st.expected).value.plaintext;
      ContiguousGrows(plaintext, st.buffer);
      NameStays(st.buffer, MergeFrames(plaintext, st.buffer).buffer);
    }
  }
}
