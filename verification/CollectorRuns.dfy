/** What the collector makes of a whole datagram, packet by packet, and of a datagram of another connection. */
module CollectorRuns {
  import opened Bytes
  import opened Framing
  import opened Reassembly
  import opened Packet
  import opened Datagram
  import opened LongHeaders
  import opened RewriterSteps
  import opened PacketNumber
  import opened Collector
  import opened Arrivals

  // ---- the packets of a datagram ------------------------------------------

  /** Whole Initial, 0-RTT and Handshake packets. */
  ghost predicate Packets(ps: seq<bytes>) {
    forall k :: 0 <= k < |ps| ==> WholeInitial(ps[k]) || WholeOther(ps[k])
  }

  /** The Initial packets are read in order, each by what the one before it left; None where one is refused. */
  datatype Reading = Reading(state: CollectorState, numbers: seq<nat>)

  ghost predicate Reads(c: Crypto, st: CollectorState, ps: seq<bytes>, r: Reading)
    requires Sound(st.buffer)
    decreases |ps|
  {
    if ps == [] then r == Reading(st, [])
    else if WholeInitial(ps[0]) then
      && r.numbers != []
      && AddPacket(c, st, ps[0]).Merged? && AddPacket(c, st, ps[0]).pn == r.numbers[0]
      && Reads(c, AddPacket(c, st, ps[0]).state, ps[1..], Reading(r.state, r.numbers[1..]))
    else Reads(c, st, ps[1..], r)
  }

  ghost predicate Least(n: nat, ns: seq<nat>) {
    n in ns && forall m :: m in ns ==> n <= m
  }

  /** The least of the numbers and of the one before them. */
  function LeastOf(before: nat, ns: seq<nat>): (n: nat) {
    if ns == [] then before else LeastOf(if ns[0] < before then ns[0] else before, ns[1..])
  }

  lemma {:induction false} LeastOfIsLeast(before: nat, ns: seq<nat>)
    ensures LeastOf(before, ns) <= before && forall m :: m in ns ==> LeastOf(before, ns) <= m
    ensures LeastOf(before, ns) == before || LeastOf(before, ns) in ns
  {
    if ns != [] {
      LeastOfIsLeast(if ns[0] < before then ns[0] else before, ns[1..]);
      assert ns == [ns[0]] + ns[1..];
    }
  }

  lemma OtherIsNoInitial(p: bytes)
    ensures WholeInitial(p) ==> QuicLongPacketEnd(p) == Some(LongPacket(INITIAL, |p|)) && !WholeOther(p)
    ensures WholeOther(p) ==> SkippedPacket(p)
  {
    InitialExact(p);
    SkippedExact(p);
    hide WholeInitial, WholeOther, QuicLongPacketEnd;
  }

  /** One packet of the walk. */
  lemma WalkOne(c: Crypto, st: CollectorState, p: bytes, rest: bytes, low: nat, found: bool)
    requires Sound(st.buffer) && (WholeInitial(p) || WholeOther(p))
    ensures WalkPackets(c, st, p + rest, low, found)
         == if !WholeInitial(p) then WalkPackets(c, st, rest, low, found)
            else match AddPacket(c, st, p)
                 case Refused(next) => Stopped(next)
                 case Merged(next, pn) => WalkPackets(c, next, rest, if pn < low then pn else low, true)
  {
    hide QuicLongPacketEnd, AddPacket, WholeInitial, WholeOther;
    OtherIsNoInitial(p);
    FirstByteHigh(p);
    LongPacketLocal(p, rest);
    var data := p + rest;
    assert p[..|p|] == p && data[|p|..] == rest && data[..|p|] == p;
  }

  lemma {:induction false} WalkGives(c: Crypto, st: CollectorState, ps: seq<bytes>, rest: bytes, low: nat, found: bool, r: Reading)
    requires Sound(st.buffer) && Packets(ps) && Over(rest) && Reads(c, st, ps, r)
    ensures WalkPackets(c, st, Concat(ps) + rest, low, found) == Walked(r.state, LeastOf(low, r.numbers), found || r.numbers != [])
    decreases |ps|
  {
    hide AddPacket, WholeInitial, WholeOther, WalkPackets;
    if ps == [] {
      assert Concat(ps) + rest == rest;
      WalkEnds(c, st, rest, low, found);
    } else {
      assert Packets(ps[1..]);
      var more := Concat(ps[1..]) + rest;
      assert Concat(ps) + rest == ps[0] + more;
      WalkOne(c, st, ps[0], more, low, found);
      if WholeInitial(ps[0]) {
        var pn := r.numbers[0];
        WalkGives(c, AddPacket(c, st, ps[0]).state, ps[1..], rest, if pn < low then pn else low, true,
                  Reading(r.state, r.numbers[1..]));
      } else {
        WalkGives(c, st, ps[1..], rest, low, found, r);
      }
    }
  }

  /** Nothing more to read: no long header, or a Version Negotiation packet, to which all that is left belongs. */
  ghost predicate Over(rest: bytes) {
    Quiet(rest) || exists h, more :: StartsWith(rest, h, more, 20) && h.version == 0
  }

  lemma WalkEnds(c: Crypto, st: CollectorState, rest: bytes, low: nat, found: bool)
    requires Sound(st.buffer) && Over(rest)
    ensures WalkPackets(c, st, rest, low, found) == Walked(st, low, found)
  {
    hide AddPacket, StartsWith, QuicLongPacketEnd;
    if !Quiet(rest) {
      var h, more :| StartsWith(rest, h, more, 20) && h.version == 0;
      LongPacketExact(rest, h, more);
      FirstByteHigh(rest);
      assert rest[|rest|..] == [];
    }
  }

  /** The packet a walk has in front of it. */
  lemma FrontPacket(data: bytes) returns (p: LongPacket)
    requires !Quiet(data) && QuicLongPacketEnd(data).Some? && QuicLongPacketEnd(data).value.packetType != RETRY
    ensures QuicLongPacketEnd(data) == Some(p) && 0 < p.end <= |data|
    ensures p.packetType == NEGOTIATION ==> Over(data)
    ensures p.packetType != NEGOTIATION ==> if p.packetType == INITIAL then WholeInitial(data[..p.end]) else WholeOther(data[..p.end])
  {
    p := QuicLongPacketEnd(data).value;
    hide QuicLongPacketEnd, StartsWith, HasKind, WholeInitial, WholeOther;
    if p.packetType == NEGOTIATION {
      var h, more := LongPacketHasHead(data);
      LongPacketExact(data, h, more);
    } else {
      CutOut(data);
      InitialExact(data[..p.end]);
      SkippedExact(data[..p.end]);
    }
  }

  /** What a walk that came to the end has read. */
  lemma {:induction false} WalkCameFrom(c: Crypto, st: CollectorState, data: bytes, low: nat, found: bool)
    returns (ps: seq<bytes>, rest: bytes, r: Reading)
    requires Sound(st.buffer) && WalkPackets(c, st, data, low, found).Walked?
    ensures data == Concat(ps) + rest && Packets(ps) && Over(rest) && Reads(c, st, ps, r)
    decreases |data|
  {
    hide AddPacket, WholeInitial, WholeOther, QuicLongPacketEnd, WalkPackets;
    ps, rest, r := [], data, Reading(st, []);
    assert Concat([]) + data == data;
    if !Over(data) {
      WalkFront(c, st, data, low, found);
      var p := FrontPacket(data);
      var first, more := data[..p.end], data[p.end..];
      assert data == first + more;
      OtherIsNoInitial(first);
      WalkOne(c, st, first, more, low, found);
      var qs, s;
      if WholeInitial(first) {
        var next := AddPacket(c, st, first);
        qs, rest, s := WalkCameFrom(c, next.state, more, if next.pn < low then next.pn else low, true);
        r := Reading(s.state, [next.pn] + s.numbers);
        assert r.numbers[1..] == s.numbers;
      } else {
        qs, rest, s := WalkCameFrom(c, st, more, low, found);
        r := s;
      }
      ps := [first] + qs;
      assert ps[1..] == qs && data == first + (Concat(qs) + rest) == first + Concat(qs) + rest;
    }
  }

  lemma WalkFront(c: Crypto, st: CollectorState, data: bytes, low: nat, found: bool)
    requires Sound(st.buffer) && WalkPackets(c, st, data, low, found).Walked? && !Quiet(data)
    ensures QuicLongPacketEnd(data).Some? && QuicLongPacketEnd(data).value.packetType != RETRY
  {
    hide AddPacket, QuicLongPacketEnd;
  }

  ghost predicate Holds(c: Crypto, st: CollectorState, data: bytes, ps: seq<bytes>, rest: bytes, r: Reading)
    requires Sound(st.buffer)
  {
    data == Concat(ps) + rest && Packets(ps) && Over(rest) && Reads(c, st, ps, r) && r.numbers != []
  }

  /**
   * A datagram is accepted exactly if it is whole packets, no Retry among them and at least one of them Initial, and every
   * Initial packet can be read and contradicts nothing; the state has them all merged, and the least number is reported.
   */
  lemma HeardExactly(c: Crypto, st: CollectorState, data: bytes)
    requires Sound(st.buffer)
    ensures AddDatagram(c, st, data).found.Some? <==> exists ps, rest, r :: Holds(c, st, data, ps, rest, r)
  {
    hide WalkPackets, Reads, Over, Packets;
    if AddDatagram(c, st, data).found.Some? {
      var ps, rest, r := WalkCameFrom(c, st, data, NO_PN, false);
      WalkGives(c, st, ps, rest, NO_PN, false, r);
      assert Holds(c, st, data, ps, rest, r);
    }
    if exists ps, rest, r :: Holds(c, st, data, ps, rest, r) {
      var ps, rest, r :| Holds(c, st, data, ps, rest, r);
      HeardOfAll(c, st, data, ps, rest, r);
    }
  }

  lemma HeardOfAll(c: Crypto, st: CollectorState, data: bytes, ps: seq<bytes>, rest: bytes, r: Reading)
    requires Sound(st.buffer) && Holds(c, st, data, ps, rest, r)
    ensures Sound(r.state.buffer) && AddDatagram(c, st, data).state == r.state
    ensures exists n :: AddDatagram(c, st, data).found == Some(Heard(SniOf(r.state.buffer), n)) && Least(n, r.numbers + [NO_PN])
  {
    hide WalkPackets, Reads, Over, Packets, SniOf;
    WalkGives(c, st, ps, rest, NO_PN, false, r);
    var n := LeastOf(NO_PN, r.numbers);
    LeastOfIsLeast(NO_PN, r.numbers);
    assert AddDatagram(c, st, data).found == Some(Heard(SniOf(r.state.buffer), n));
  }

  // ---- a Retry, and another connection ------------------------------------

  /** A Retry behind packets that can be read clears all that was collected, and nothing is heard. */
  lemma {:induction false} RetryClears(c: Crypto, st: CollectorState, ps: seq<bytes>, retry: bytes, r: Reading)
    requires Sound(st.buffer) && Packets(ps) && RetryPacket(retry) && Reads(c, st, ps, r)
    ensures AddDatagram(c, st, Concat(ps) + retry) == AddResult(CollectorState(0, [], 0, Buffer([], [])), None)
  {
    hide WalkPackets, Reads, Packets, RetryPacket, SniOf;
    WalkMeetsRetry(c, st, ps, retry, NO_PN, false, r);
  }

  lemma {:induction false} WalkMeetsRetry(c: Crypto, st: CollectorState, ps: seq<bytes>, retry: bytes, low: nat, found: bool, r: Reading)
    requires Sound(st.buffer) && Packets(ps) && RetryPacket(retry) && Reads(c, st, ps, r)
    ensures WalkPackets(c, st, Concat(ps) + retry, low, found) == Stopped(NEW)
    decreases |ps|
  {
    hide AddPacket, WholeInitial, WholeOther, WalkPackets, RetryPacket;
    if ps == [] {
      assert Concat(ps) + retry == retry;
      WalkStopsAtRetry(c, st, retry, low, found);
    } else {
      assert Packets(ps[1..]);
      var more := Concat(ps[1..]) + retry;
      assert Concat(ps) + retry == ps[0] + more;
      WalkOne(c, st, ps[0], more, low, found);
      if WholeInitial(ps[0]) {
        var pn := r.numbers[0];
        WalkMeetsRetry(c, AddPacket(c, st, ps[0]).state, ps[1..], retry, if pn < low then pn else low, true,
                       Reading(r.state, r.numbers[1..]));
      } else {
        WalkMeetsRetry(c, st, ps[1..], retry, low, found, r);
      }
    }
  }

  lemma WalkStopsAtRetry(c: Crypto, st: CollectorState, retry: bytes, low: nat, found: bool)
    requires Sound(st.buffer) && RetryPacket(retry)
    ensures WalkPackets(c, st, retry, low, found) == Stopped(NEW)
  {
    RetryExact(retry);
    hide AddPacket, QuicLongPacketEnd, RetryPacket;
    FirstByteHigh(retry);
  }

  /** A packet of another version or connection ID is read as if nothing had come before it. */
  lemma OtherConnectionStartsAfresh(c: Crypto, st: CollectorState, i: InitialDatagram)
    requires Lawful(c) && Sendable(i) && Quiet(i.suffix) && Sound(st.buffer) && Decodes(i.pn, i.pnLen, 0)
    requires st.version != 0 && (st.version != i.header.version || st.dcid != i.header.dcid)
    ensures AddDatagram(c, st, Arrivals.Wire(c, i)) == AddDatagram(c, NEW, Arrivals.Wire(c, i))
    ensures var m := MergeFrames(i.plaintext, Buffer([], []));
      AddDatagram(c, st, Arrivals.Wire(c, i))
      == AddResult(CollectorState(i.header.version, i.header.dcid, i.pn + 1, m.buffer),
                   if m.ok then Some(Heard(SniOf(m.buffer), i.pn)) else None)
  {
    hide QuicLongPacketEnd, LocateQUICInitial, ParseInitialPacket, DecryptInitial, MergeFrames, Arrivals.Wire, PacketIn,
      Decodes, SniOf, Concat, AddPacket, WalkPackets, Sendable, Quiet, SkippedPackets, SupportedVersion, Lawful;
    DatagramArrives(c, NEW, i);
    var packet := PacketOnWire(c, i, 0);
    WalkSkips(c, st, i.skipped, packet + i.suffix);
    WalkReads(c, st, packet, i.suffix);
    WalkSkips(c, NEW, i.skipped, packet + i.suffix);
    WalkReads(c, NEW, packet, i.suffix);
    ReadAfresh(c, st, packet, i.header);
  }

  lemma ReadAfresh(c: Crypto, st: CollectorState, packet: bytes, h: Header)
    requires Sound(st.buffer) && st.version != 0 && (st.version != h.version || st.dcid != h.dcid)
    requires ParseInitialPacket(packet).Some? && ParseInitialPacket(packet).value.header == h
    ensures AddPacket(c, st, packet) == AddPacket(c, NEW, packet)
  {
    hide ParseInitialPacket, DecryptInitial, MergeFrames;
  }
}
