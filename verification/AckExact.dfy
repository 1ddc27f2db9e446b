/** Exactly when the client reads wrong acknowledgements, and runs in which it does. */
module AckExact {
  import opened Bytes
  import opened Varint
  import opened PacketNumber
  import opened Framing
  import opened Reassembly
  import opened Acks
  import opened AckSize
  import opened Splitting
  import opened SmallHello
  import opened Packet
  import opened Padding
  import opened Datagram
  import opened Rewriter
  import opened RewriterSteps
  import opened Run
  import opened Coalesced
  import opened AckSafety

  // ---- the exact condition ------------------------------------------------

  /** No larger number is on the wire. */
  ghost predicate Newest(w: World, m: nat) {
    OnTheWire(w, m) && forall m': nat :: OnTheWire(w, m') ==> m' <= m
  }

  /** Once a packet has been split, the newest number on the wire, if it is a shifted one, is one the client has not reached. */
  lemma NewestUnsent(w: World, m: nat)
    requires Invariant(w) && w.rw.initialized && Newest(w, m) && m > w.rw.firstClientPN && m !in w.untouched
    ensures !Sent(w, m)
  {
    assert m in w.read ==> (m, m + 1) in w.numbering;
    assert (m, m + 1) in w.numbering ==> OnTheWire(w, m + 1);
  }

  /** A payload that acknowledges the newest number on the wire is changed by the rewriting. */
  lemma NewestIsRewritten(w: World, plaintext: bytes, m: nat)
    requires w.rw.initialized && Newest(w, m) && m > w.rw.firstClientPN && AckedBy(plaintext, m)
    requires AcksOnWire(w, plaintext)
    ensures var rewritten := RewriteAckFrames(plaintext, w.rw.firstClientPN);
      rewritten.Some? && rewritten.value != plaintext
  {
    RewriteExact(plaintext, w.rw.firstClientPN);
    RewrittenAcks(plaintext, w.rw.firstClientPN, m);
    hide RewriteAckFrames, AckedBy;
    forall m': nat | AckedBy(plaintext, m')
      ensures MapAckPN(m', w.rw.firstClientPN) != m
    {
      assert OnTheWire(w, m');
    }
  }

  /** The packet can be replaced: the rewriter opens it, and the size required is not too small and not in a hole. */
  ghost predicate Replaceable(c: Crypto, st: RewriterState, data: bytes, r: Content) {
    && Opens(c, st, data)
    && RewriteAckFrames(r.plaintext, st.firstClientPN).Some?
    && Paddable(r.header, r.pnLen, |RewriteAckFrames(r.plaintext, st.firstClientPN).value|,
                TargetSize(|PacketIn(data)|, |data|))
  }

  /**
   * Exactly when the client is safe: for a server datagram in which some Initial, the one at place j, acknowledges the
   * newest number on the wire, a shifted one, all that the client reads as acknowledged was sent if and only if that is
   * the first Initial, the rewriter opens it - the recorded version, and it decrypts -, the size its replacement must have
   * is not too small and not in a hole of the Length field, it acknowledges no packet that went out untouched after a gap,
   * and the further ones name only numbers the client sent.
   */
  lemma AckedWereSentExactly(c: Crypto, ws: seq<World>, es: seq<Event>, k: nat, data: bytes, expected: seq<nat>, m: nat, j: nat)
    requires Lawful(c) && IsRun(c, ws, es) && k < |ws| && ws[k].rw.initialized && ServerSends(c, ws[k], data, expected)
    requires var rs := ClientReads(c, ws[k].dcid, data, expected);
      Honest(ws[k], rs) && j < |rs| && rs[j].Some? && AckedBy(rs[j].value.plaintext, m)
    requires Newest(ws[k], m) && m > ws[k].rw.firstClientPN && m !in ws[k].untouched
    ensures var rs := ClientReads(c, ws[k].dcid, data, expected);
      var out := ServerStep(c, ws[k].rw, data).datagram;
      && |InitialsIn(out)| == |expected|
      && (Safe(ws[k], ClientReads(c, ws[k].dcid, out, expected)) <==>
            && j == 0 && Replaceable(c, ws[k].rw, data, rs[0].value)
            && StraysFollow(ws[k], rs[0].value.plaintext) && FurtherSafe(ws[k], rs))
  {
    var w := ws[k];
    RunKeepsInvariant(c, ws, es, k);
    InvariantParts(w);
    hide IsRun, Invariant, Honest, Newest, AckedBy, RewriteAckFrames, ServerStep, Opens, Replaceable, PacketIn, ServerSends, Lawful,
      StraysFollow, Sent, Gapless, AllRead, ClientReads, InitialsIn, Safe, FurtherSafe, AcksOnlySent, AcksOnWire, Shifted, Handled;
    var rs := ClientReads(c, w.dcid, data, expected);
    NewestUnsent(w, m);
    FurtherIsWrong(w, rs, j, m);
    HonestByParts(w, rs, j);
    if j == 0 {
      HandledExactly(c, w, data, rs, m);
    }
    if Handled(c, w.rw, data, rs) {
      var padding := AckedWereSent(c, ws, es, k, data, expected);
    } else {
      var padding := ClientSees(c, w, data, expected);
      SafeByParts(w, rs);
      UnhandledIsWrong(w, rs, j, m);
    }
  }

  lemma FurtherIsWrong(w: World, rs: seq<Option<Content>>, j: nat, m: nat)
    requires j < |rs| && rs[j].Some? && AckedBy(rs[j].value.plaintext, m) && !Sent(w, m)
    ensures j > 0 ==> !FurtherSafe(w, rs)
  {
    hide AckedBy, Sent;
  }

  lemma UnhandledIsWrong(w: World, rs: seq<Option<Content>>, j: nat, m: nat)
    requires j < |rs| && rs[j].Some? && AckedBy(rs[j].value.plaintext, m) && !Sent(w, m)
    ensures !Safe(w, rs)
  {
    hide AckedBy, Sent;
    assert AckedIn(rs, m);
  }

  /** The first Initial, if it acknowledges the newest number, is handled exactly if it can be replaced. */
  lemma HandledExactly(c: Crypto, w: World, data: bytes, rs: seq<Option<Content>>, m: nat)
    requires w.rw.initialized && FirstRead(rs) && AcksOnWire(w, rs[0].value.plaintext)
    requires Newest(w, m) && m > w.rw.firstClientPN && AckedBy(rs[0].value.plaintext, m)
    ensures Handled(c, w.rw, data, rs) <==> Replaceable(c, w.rw, data, rs[0].value)
  {
    hide Newest, AckedBy, RewriteAckFrames, Opens, Paddable, Reachable, PacketIn, TargetSize, AcksOnWire;
    var r := rs[0].value;
    NewestIsRewritten(w, r.plaintext, m);
    ReachableExactly(r.header, r.pnLen, |RewriteAckFrames(r.plaintext, w.rw.firstClientPN).value|,
                     TargetSize(|PacketIn(data)|, |data|));
  }

  // ---- a run that starts the rewriting ------------------------------------

  /** A connection ID of eight bytes, the least a client may start with (section 7.2 of RFC 9000). */
  const CLIENT_ID: bytes := [0x83, 0x94, 0xc8, 0xf0, 0x3e, 0x51, 0x57, 0x08]

  const HEADER: Header := Header(VERSION_1, CLIENT_ID, [], [])

  /** What lifts the client's datagram to 1200 bytes (section 14.1 of RFC 9000). */
  const PADDING: nat := 1104

  /** The client's first packet: the ClientHello in one CRYPTO frame, and padding; then what stands behind it. */
  ghost function FirstInitial(suffix: bytes): (i: InitialDatagram) {
    InitialDatagram([], HEADER, 0, 1, BuildCryptoFrame(0, HELLO) + Zeros(PADDING), suffix)
  }

  lemma FirstInitialSplits(suffix: bytes)
    ensures |FirstInitial(suffix).plaintext| == 61 + PADDING
    ensures SplitInitialCryptoFrames(FirstInitial(suffix).plaintext).Some?
  {
    hide BuildCryptoFrame, Whole, Frames, SegmentOf, SplitAt, WholeStream, CryptoSegments, SplitInitialCryptoFrames, Zeros,
      OtherFrames;
    HelloIsCut();
    BuiltSize();
    ClosedNone();
    PaddedPayload([], 0, HELLO, PADDING);
    var p := FirstInitial(suffix).plaintext;
    assert p == Concat([]) + BuildCryptoFrame(0, HELLO) + Zeros(PADDING);
    assert [] + [Segment(0, HELLO)] == [Segment(0, HELLO)];
    OneSegmentSplits(p, Frames(p).value, HELLO);
  }

  lemma FirstInitialSendable(suffix: bytes)
    ensures Sendable(FirstInitial(suffix)) && |FirstInitial(suffix).plaintext| == 61 + PADDING
    ensures Decodes(0, 1, 0)
  {
    FirstInitialSplits(suffix);
    hide BuildCryptoFrame, SplitInitialCryptoFrames;
    PowerValues();
    DecodeExact(0, 1, 0);
  }

  ghost function FirstData(c: Crypto, suffix: bytes): (data: bytes)
    requires Lawful(c)
  {
    FirstInitialSendable(suffix);
    WireBytes(c, FirstInitial(suffix), ClientKeys(c, HEADER))
  }

  /** The rewriter once the client's first packet has gone out as 0 and 1, and those of its packets that went out untouched. */
  ghost function SplitWorld(untouched: set<nat>): (w: World) {
    World(RewriterState(true, VERSION_1, CLIENT_ID, 0, 1, 0), CLIENT_ID,
          {(0, 0), (0, 1)} + (set u | u in untouched :: (u, u)), {0}, untouched)
  }

  /** Under any lawful cryptography such a world is reached by a run of one step: a real datagram carries the ClientHello. */
  lemma SplitIsReached(c: Crypto, suffix: bytes, more: seq<Content>) returns (ws: seq<World>, es: seq<Event>)
    requires Lawful(c) && Contain(c, CLIENT_ID, InitialsIn(suffix), more)
    ensures IsRun(c, ws, es) && ws == [Start(CLIENT_ID), SplitWorld(OwnNumbers(more))]
    ensures es == [ClientInitial(FirstData(c, suffix), FirstInitial(suffix), more)]
    ensures ClientSends(c, Start(CLIENT_ID), FirstData(c, suffix), FirstInitial(suffix))
    ensures |FirstData(c, suffix)| == 1200 + |suffix|
  {
    hide SplitInitialCryptoFrames, ClientStep, WireBytes, Decodes, Sendable, BuildCryptoFrame, Reads, Lawful, Emits, ClientState,
      Numbers, Contain, InitialsIn, ClientReadable;
    var i := FirstInitial(suffix);
    FirstInitialSplits(suffix);
    FirstInitialSendable(suffix);
    FirstNumbers(suffix);
    var data := FirstData(c, suffix);
    FirstSize(c, suffix);
    ws, es := [Start(CLIENT_ID), SplitWorld(OwnNumbers(more))], [ClientInitial(data, i, more)];
    ClientCanSend(c, Start(CLIENT_ID), i, more);
    ClientEmission(c, INITIAL_STATE, data, i);
    assert AfterInitial(c, Start(CLIENT_ID), data, i, more) == SplitWorld(OwnNumbers(more));
  }

  lemma FirstSize(c: Crypto, suffix: bytes)
    requires Lawful(c)
    ensures |FirstData(c, suffix)| == 1200 + |suffix|
  {
    FirstInitialSendable(suffix);
    var i := FirstInitial(suffix);
    hide BuildCryptoFrame, EncryptInitial, Sendable, Lawful;
    EncryptedSize(c, i.header, 0, 1, i.plaintext, ClientKeys(c, HEADER));
    assert Concat([]) == [];
  }

  lemma FirstNumbers(suffix: bytes)
    ensures Numbers(INITIAL_STATE, FirstInitial(suffix)) == {(0, 0), (0, 1)}
    ensures ClientState(INITIAL_STATE, FirstInitial(suffix)) == SplitWorld({}).rw
  {
    hide SplitInitialCryptoFrames, BuildCryptoFrame;
    FirstInitialSplits(suffix);
    var i := FirstInitial(suffix);
    var emitted := Emits(INITIAL_STATE, i);
    assert |emitted| == 2 && emitted[0].pn == 0 && emitted[1].pn == 1;
    assert (0, emitted[0].pn) in Numbers(INITIAL_STATE, i) && (0, emitted[1].pn) in Numbers(INITIAL_STATE, i);
  }

  /** With nothing behind the first packet, nothing goes out untouched. */
  lemma PlainSplit(c: Crypto) returns (ws: seq<World>, es: seq<Event>)
    requires Lawful(c)
    ensures IsRun(c, ws, es) && ws == [Start(CLIENT_ID), SplitWorld({})]
    ensures es == [ClientInitial(FirstData(c, []), FirstInitial([]), [])] && |FirstData(c, [])| == 1200
    ensures ClientSends(c, Start(CLIENT_ID), FirstData(c, []), FirstInitial([]))
  {
    hide ClientSends, Lawful, SplitWorld;
    NoInitials();
    ws, es := SplitIsReached(c, [], []);
    assert OwnNumbers([]) == {};
  }

  // ---- acknowledgements that go wrong -------------------------------------

  /** An ACK frame for packet m alone. */
  function OneAck(m: byte): (f: bytes) {
    [0x02, m, 0x00, 0x00, 0x00]
  }

  lemma OneAckFrame(m: byte)
    requires m < 64
    ensures Frames(OneAck(m)) == Some([OneAck(m)])
    ensures forall n: nat :: AckedBy(OneAck(m), n) <==> n == m
    ensures PayloadAcksBelow(OneAck(m), FIT_BOUND)
  {
    OneAckWhole(m);
    hide Frames, Whole, IsAck, AckOf, OneAck;
    var f := OneAck(m);
    assert Frames(f) == Some([f]) by {
      ConcatOne(f);
      FramesOfConcat([f]);
    }
    forall n: nat
      ensures AckedBy(f, n) <==> n == m
    {
      assert [f][0] == f;
      assert Acked([AckRange(m, m)], n) <==> n == m by {
        assert [AckRange(m, m)][0] == AckRange(m, m);
      }
    }
  }

  lemma OneAckWhole(m: byte)
    requires m < 64
    ensures Whole(OneAck(m)) && IsAck(OneAck(m)) && AckOf(OneAck(m)).ranges == [AckRange(m, m)]
  {
    var ack := AckFrame(0x02, 0, [AckRange(m, m)], [0, 0, 0]);
    hide ParseAck, PrintAck;
    OneAckPrinted(m);
    assert ValidAck(ack);
    PrintedAckParses(ack);
    ParsedIsWhole(OneAck(m), ack);
  }

  lemma ParsedIsWhole(f: bytes, ack: AckFrame)
    requires f != [] && f[0] == 0x02 && ParseAck(f, 1, 0x02) == Some(AckAt(ack, |f|))
    ensures Whole(f) && IsAck(f) && AckOf(f) == ack
  {
    hide ParseAck, SkipCounted, SkipVarints, CryptoEnd, StreamEnd, NewConnectionIdEnd, CloseEnd;
  }

  lemma OneAckPrinted(m: byte)
    requires m < 64
    ensures PrintAck(AckFrame(0x02, 0, [AckRange(m, m)], [0, 0, 0])) == Some(OneAck(m))
  {
    SmallVarint(0);
    SmallVarint(m);
    hide WriteVarint;
    var ranges := [AckRange(m, m)];
    assert ranges[1..] == [];
    assert PrintRanges(ranges[0], []) == Some([]);
    assert WriteVarint(0) + WriteVarint(0) + [] == [0x00, 0x00];
    assert PrintAckRanges(ranges) == Some([0x00, 0x00]);
    assert [0x02 as byte] + [m] + [0x00] + [0x00, 0x00] + [] == OneAck(m);
  }

  lemma SmallVarint(v: byte)
    requires v < 64
    ensures WriteVarint(v) == [v]
  {
    assert Pow256(0) == 1;
  }

  /** The server's answer, numbered pn: it acknowledges packet m, with these bytes behind it. */
  ghost function Answer(version: nat, pn: nat, m: byte, suffix: bytes): (i: InitialDatagram) {
    InitialDatagram([], Header(version, [], [], []), pn, 1, OneAck(m), suffix)
  }

  ghost function AnswerData(c: Crypto, version: nat, pn: nat, m: byte, suffix: bytes): (data: bytes)
    requires Lawful(c) && SupportedVersion(version) && pn < 64
  {
    AnswerFits(version, pn, m, suffix);
    WireBytes(c, Answer(version, pn, m, suffix), c.derive(version, CLIENT_ID, true))
  }

  lemma AnswerFits(version: nat, pn: nat, m: byte, suffix: bytes)
    requires SupportedVersion(version) && pn < 64
    ensures Sendable(Answer(version, pn, m, suffix))
  {
  }

  lemma SmallDecodes(pn: nat, pnLen: nat, expected: nat)
    requires 1 <= pnLen <= 4 && pn < 64 && expected < 64
    ensures Decodes(pn, pnLen, expected)
  {
    PowerValues();
    DecodeExact(pn, pnLen, expected);
  }

  lemma AnswerSize(c: Crypto, version: nat, pn: nat, m: byte, suffix: bytes)
    requires Lawful(c) && SupportedVersion(version) && pn < 64
    ensures var i := Answer(version, pn, m, suffix);
      && Sendable(i) && |PacketBytes(c, i, c.derive(version, CLIENT_ID, true))| == 31
      && |AnswerData(c, version, pn, m, suffix)| == 31 + |suffix|
  {
    var i := Answer(version, pn, m, suffix);
    AnswerFits(version, pn, m, suffix);
    EncryptedSize(c, i.header, pn, 1, OneAck(m), c.derive(version, CLIENT_ID, true));
    hide EncryptInitial, Lawful, Sendable;
    assert Concat([]) == [];
  }

  /** It is a datagram the run theorems speak of, and the client reads it. */
  lemma AnswerSendable(c: Crypto, untouched: set<nat>, version: nat, m: byte, suffix: bytes, expected: seq<nat>)
    requires Lawful(c) && SupportedVersion(version) && 31 + |suffix| <= MAX_PLAINTEXT
    requires |expected| == 1 + |InitialsIn(suffix)| && expected[0] == 0
    ensures var data := AnswerData(c, version, 0, m, suffix);
      && |data| == 31 + |suffix| && |PacketIn(data)| == 31
      && ServerSends(c, SplitWorld(untouched), data, expected)
      && InitialsIn(data) == [PacketIn(data)] + InitialsIn(suffix)
      && ClientReads(c, CLIENT_ID, data, expected)[0] == Some(ContentOf(Answer(version, 0, m, suffix)))
      && (Opens(c, SplitWorld(untouched).rw, data) <==> version == VERSION_1)
  {
    hide EncryptInitial, Decodes, Reads, ServerSends, Opens, PacketIn, Lawful, Sendable, SupportedVersion, WireBytes, PacketBytes,
      InitialsIn, ClientReads, OneAck;
    var i := Answer(version, 0, m, suffix);
    AnswerFits(version, 0, m, suffix);
    SmallDecodes(0, 1, 0);
    Received(c, i, c.derive(version, CLIENT_ID, true), 0);
    AnswerSize(c, version, 0, m, suffix);
    SplitWorldShifted(untouched);
    ServerCanSend(c, SplitWorld(untouched), i, expected);
  }

  lemma SplitWorldShifted(untouched: set<nat>)
    ensures Shifted(SplitWorld(untouched))
  {
    assert (0, 1) in SplitWorld(untouched).numbering;
  }

  /** What is read from these answers acknowledges only these numbers. */
  ghost predicate OnlyAcks(rs: seq<Option<Content>>, m: byte) {
    forall k :: 0 <= k < |rs| && rs[k].Some? ==> rs[k].value.plaintext == OneAck(m)
  }

  lemma AnswersAreHonest(w: World, rs: seq<Option<Content>>, m: byte)
    requires m < 64 && OnlyAcks(rs, m) && OnTheWire(w, m)
    ensures Honest(w, rs)
    ensures forall k :: 0 <= k < |rs| && rs[k].Some? ==> AckedBy(rs[k].value.plaintext, m)
  {
    OneAckFrame(m);
    hide AckedBy, OneAck, OnTheWire;
  }

  lemma OneIsNewest()
    ensures Newest(SplitWorld({}), 1) && !Sent(SplitWorld({}), 1)
  {
    assert (0, 1) in SplitWorld({}).numbering;
    assert OnTheWire(SplitWorld({}), 1);
  }

  /**
   * A hole that is met. In a run of one step, a server that answers the split packet with its acknowledgement and 1127
   * other bytes in the same datagram makes the client read an acknowledgement of a packet it never sent: lifting the
   * datagram to 1200 bytes needs a packet of 73, whose Length field would have to be 65 bytes behind the header.
   */
  lemma UnsentAckInHole(c: Crypto, suffix: bytes) returns (ws: seq<World>, es: seq<Event>)
    requires Lawful(c) && |suffix| == 1127 && InitialsIn(suffix) == []
    ensures IsRun(c, ws, es) && ws == [Start(CLIENT_ID), SplitWorld({})]
    ensures MisleadsAlone(c, SplitWorld({}), AnswerData(c, VERSION_1, 0, 1, suffix))
  {
    hide ServerSends, Opens, PacketIn, IsRun, Lawful, InitialsIn, ClientReads, Honest, Newest, Safe, Sent, AckedBy, OneAck,
      RewriteAckFrames, Paddable, SplitWorld;
    ws, es := PlainSplit(c);
    AnswerSendable(c, {}, VERSION_1, 1, suffix, [0]);
    AnswerAlone(c, ws, es, VERSION_1, suffix);
    HoleIsMet(AnswerData(c, VERSION_1, 0, 1, suffix), Answer(VERSION_1, 0, 1, suffix));
  }

  lemma HoleIsMet(data: bytes, i: InitialDatagram)
    requires |PacketIn(data)| == 31 && |data| == 31 + 1127 && HeaderSize(i.header) == 8 && 1 <= i.pnLen <= 4
    ensures forall n: nat :: !Paddable(i.header, i.pnLen, n, TargetSize(|PacketIn(data)|, |data|))
  {
    hide PacketIn, HeaderSize;
  }

  /**
   * The only Initial of this datagram reaches a client that expects number 0 as the server made it, and tells it of a
   * packet it never sent, although the server names only numbers on the wire.
   */
  ghost predicate MisleadsAlone(c: Crypto, w: World, data: bytes) {
    var out := ServerStep(c, w.rw, data).datagram;
    && ServerSends(c, w, data, [0]) && |InitialsIn(data)| == |InitialsIn(out)| == 1
    && Honest(w, ClientReads(c, w.dcid, data, [0]))
    && !Safe(w, ClientReads(c, w.dcid, out, [0]))
  }

  lemma OneAnswer(c: Crypto, untouched: set<nat>, version: nat, m: byte, suffix: bytes)
    requires Lawful(c) && SupportedVersion(version) && 31 + |suffix| <= MAX_PLAINTEXT && InitialsIn(suffix) == []
    ensures var data := AnswerData(c, version, 0, m, suffix);
      && ServerSends(c, SplitWorld(untouched), data, [0]) && |InitialsIn(data)| == 1
      && |data| == 31 + |suffix| && |PacketIn(data)| == 31
      && (Opens(c, SplitWorld(untouched).rw, data) <==> version == VERSION_1)
      && var rs := ClientReads(c, CLIENT_ID, data, [0]);
      && rs == [Some(ContentOf(Answer(version, 0, m, suffix)))] && OnlyAcks(rs, m) && FirstRead(rs)
  {
    hide ServerSends, Opens, PacketIn, Lawful, InitialsIn, ClientReads, OneAck, SplitWorld, AnswerData, SupportedVersion;
    AnswerSendable(c, untouched, version, m, suffix, [0]);
  }

  lemma AnswerAlone(c: Crypto, ws: seq<World>, es: seq<Event>, version: nat, suffix: bytes)
    requires Lawful(c) && IsRun(c, ws, es) && ws == [Start(CLIENT_ID), SplitWorld({})]
    requires SupportedVersion(version) && 31 + |suffix| <= MAX_PLAINTEXT && InitialsIn(suffix) == []
    ensures var data := AnswerData(c, version, 0, 1, suffix);
      !Replaceable(c, SplitWorld({}).rw, data, ContentOf(Answer(version, 0, 1, suffix))) ==> MisleadsAlone(c, SplitWorld({}), data)
  {
    hide ServerSends, Opens, PacketIn, IsRun, Lawful, InitialsIn, ClientReads, Honest, Newest, Safe, Sent, AckedBy, OneAck,
      RewriteAckFrames, Paddable, ServerStep, Replaceable, OnTheWire, StraysFollow, FurtherSafe, AnswerData, OnlyAcks;
    var data := AnswerData(c, version, 0, 1, suffix);
    OneAnswer(c, {}, version, 1, suffix);
    var rs := ClientReads(c, CLIENT_ID, data, [0]);
    OneIsNewest();
    NewestIsOut(SplitWorld({}), 1);
    AnswersAreHonest(SplitWorld({}), rs, 1);
    AckedWereSentExactly(c, ws, es, 1, data, [0], 1, 0);
  }

  lemma NewestIsOut(w: World, m: nat)
    requires Newest(w, m)
    ensures OnTheWire(w, m)
  {
  }

  /** And so does a server that answers in another version: the rewriter does not open its packet. */
  lemma UnsentAckInOtherVersion(c: Crypto, version: nat, suffix: bytes) returns (ws: seq<World>, es: seq<Event>)
    requires Lawful(c) && SupportedVersion(version) && version != VERSION_1
    requires 31 + |suffix| <= MAX_PLAINTEXT && InitialsIn(suffix) == []
    ensures IsRun(c, ws, es) && ws == [Start(CLIENT_ID), SplitWorld({})]
    ensures MisleadsAlone(c, SplitWorld({}), AnswerData(c, version, 0, 1, suffix))
  {
    hide ServerSends, Opens, PacketIn, IsRun, Lawful, InitialsIn, ClientReads, Honest, Newest, Safe, Sent, AckedBy, OneAck,
      RewriteAckFrames, Paddable, SplitWorld;
    ws, es := PlainSplit(c);
    AnswerSendable(c, {}, version, 1, suffix, [0]);
    AnswerAlone(c, ws, es, version, suffix);
  }

  /**
   * A second Initial. After the same run, a server puts two Initials in one datagram, both acknowledging the second half
   * of the split packet. The first is handled; the second passes as it is and tells the client of a packet it never sent.
   */
  lemma UnsentAckBehind(c: Crypto, filler: bytes) returns (ws: seq<World>, es: seq<Event>)
    requires Lawful(c) && InitialsIn(filler) == [] && MIN_DATAGRAM <= 62 + |filler| <= MAX_PLAINTEXT
    ensures IsRun(c, ws, es) && ws == [Start(CLIENT_ID), SplitWorld({})]
    ensures var data := AnswerData(c, VERSION_1, 0, 1, AnswerData(c, VERSION_1, 1, 1, filler));
      var w := SplitWorld({});
      var out := ServerStep(c, w.rw, data).datagram;
      && |InitialsIn(data)| == |InitialsIn(out)| == 2
      && ServerSends(c, w, data, [0, 1])
      && var rs := ClientReads(c, w.dcid, data, [0, 1]);
      && FirstRead(rs) && Honest(w, rs) && Handled(c, w.rw, data, rs)
      && !Safe(w, ClientReads(c, w.dcid, out, [0, 1]))
  {
    hide ServerSends, Opens, PacketIn, IsRun, Lawful, InitialsIn, ClientReads, Honest, Newest, Safe, Sent, AckedBy, OneAck,
      ServerStep, OnTheWire, Handled, StraysFollow, Gapless, AllRead, FurtherSafe, Told, OnlyAcks, AnswerData, RewrittenFirst,
      ReadPacket, WireBytes, ClientSends, FirstData, SplitWorld;
    SplitWorldParts({});
    ws, es := PlainSplit(c);
    var w := SplitWorld({});
    var suffix := AnswerData(c, VERSION_1, 1, 1, filler);
    SecondAnswer(c, filler);
    AnswerSize(c, VERSION_1, 1, 1, filler);
    AnswerSendable(c, {}, VERSION_1, 1, suffix, [0, 1]);
    var data := AnswerData(c, VERSION_1, 0, 1, suffix);
    var rs := ClientReads(c, CLIENT_ID, data, [0, 1]);
    TwoAnswersRead(c, data, suffix, rs);
    OneIsNewest();
    NewestIsOut(w, 1);
    AnswersAreHonest(w, rs, 1);
    FurtherIsWrong(w, rs, 1, 1);
    AnswerIsHandled(c, {}, data, rs, [0, 1], 1);
    var padding := AckedWereSent(c, ws, es, 1, data, [0, 1]);
  }

  lemma SecondAnswer(c: Crypto, filler: bytes)
    requires Lawful(c) && InitialsIn(filler) == []
    ensures var suffix := AnswerData(c, VERSION_1, 1, 1, filler);
      && InitialsIn(suffix) == [PacketIn(suffix)]
      && ReadPacket(c, CLIENT_ID, true, PacketIn(suffix), 1) == Some(ContentOf(Answer(VERSION_1, 1, 1, filler)))
  {
    hide Lawful, WireBytes, Sendable, InitialsIn, ReadPacket, PacketIn, Reads, Decodes, OneAck;
    var i := Answer(VERSION_1, 1, 1, filler);
    AnswerFits(VERSION_1, 1, 1, filler);
    SmallDecodes(1, 1, 1);
    Received(c, i, c.derive(VERSION_1, CLIENT_ID, true), 1);
    FirstAndRest(c, CLIENT_ID, true, AnswerData(c, VERSION_1, 1, 1, filler), 1, i);
    assert [PacketIn(AnswerData(c, VERSION_1, 1, 1, filler))] + [] == [PacketIn(AnswerData(c, VERSION_1, 1, 1, filler))];
  }

  lemma TwoAnswersRead(c: Crypto, data: bytes, suffix: bytes, rs: seq<Option<Content>>)
    requires InitialsIn(suffix) == [PacketIn(suffix)] && InitialsIn(data) == [PacketIn(data)] + InitialsIn(suffix)
    requires |InitialsIn(data)| == 2 && rs == ClientReads(c, CLIENT_ID, data, [0, 1])
    requires rs[0].Some? && rs[0].value.plaintext == OneAck(1)
    requires var r := ReadPacket(c, CLIENT_ID, true, PacketIn(suffix), 1); r.Some? && r.value.plaintext == OneAck(1)
    ensures OnlyAcks(rs, 1) && rs[1].Some?
  {
    hide InitialsIn, PacketIn, ReadPacket, OneAck;
    assert InitialsIn(data)[1] == PacketIn(suffix);
  }

  /** An answer that opens and needs no lifting to 1200 bytes is handled. */
  lemma AnswerIsHandled(c: Crypto, untouched: set<nat>, data: bytes, rs: seq<Option<Content>>, expected: seq<nat>, m: byte)
    requires Lawful(c) && ServerSends(c, SplitWorld(untouched), data, expected) && Opens(c, SplitWorld(untouched).rw, data) && m < 64
    requires rs == ClientReads(c, CLIENT_ID, data, expected) && FirstRead(rs) && rs[0].value.plaintext == OneAck(m)
    requires HeaderSize(rs[0].value.header) == 8 && |PacketIn(data)| == 31 && |data| >= MIN_DATAGRAM
    ensures Handled(c, SplitWorld(untouched).rw, data, rs)
  {
    hide ServerSends, Opens, PacketIn, SizeReachable, ServerReadable, Lawful, InitialsIn, ReadPacket, OneAck, AckedBy, PayloadAcksBelow,
      HeaderSize, Reads;
    SplitWorldShifted(untouched);
    var i := OpenedIsReadable(c, SplitWorld(untouched), data, expected);
    OneAckFrame(m);
    FitsUnlessHole(c, SplitWorld(untouched).rw, data, i);
  }

  // ---- client packets that go out untouched -------------------------------

  /** The world after the client's packet n went out untouched behind the split one. */
  lemma StrayIsReached(c: Crypto, i: InitialDatagram) returns (ws: seq<World>, es: seq<Event>)
    requires Lawful(c) && Sendable(i) && 1 <= i.pn < 64 && i.header.dcid != CLIENT_ID && InitialsIn(i.suffix) == []
    ensures var data := WireBytes(c, i, c.derive(i.header.version, CLIENT_ID, false));
      && IsRun(c, ws, es) && ws == [Start(CLIENT_ID), SplitWorld({}), SplitWorld({i.pn})]
      && es == [ClientInitial(FirstData(c, []), FirstInitial([]), []), ClientPassed(data, [ContentOf(i)])]
      && ClientSends(c, Start(CLIENT_ID), FirstData(c, []), FirstInitial([]))
      && Passes(c, SplitWorld({}).rw, data)
      && InitialsIn(data) == [PacketIn(data)]
      && ReadPacket(c, CLIENT_ID, false, PacketIn(data), 1) == Some(ContentOf(i))
  {
    hide ClientStep, WireBytes, Decodes, Sendable, BuildCryptoFrame, Reads, Lawful, InitialsIn, Contain, ReadPacket, PacketIn,
      ClientSends;
    var first, begin := PlainSplit(c);
    var keys := c.derive(i.header.version, CLIENT_ID, false);
    var data := WireBytes(c, i, keys);
    SendableIsShort(i);
    SmallDecodes(i.pn, i.pnLen, 1);
    AdoptedIdStrays(c, SplitWorld({}), i, keys);
    Received(c, i, keys, 1);
    OneContained(c, data, i);
    ws := first + [SplitWorld({i.pn})];
    es := begin + [ClientPassed(data, [ContentOf(i)])];
    assert AfterPassed(SplitWorld({}), [ContentOf(i)]) == SplitWorld({i.pn}) by {
      OneOwn(ContentOf(i));
    }
  }

  lemma SendableIsShort(i: InitialDatagram)
    requires Sendable(i)
    ensures 1 <= i.pnLen <= 4
  {
  }

  lemma OneOwn(r: Content)
    ensures OwnNumbers([r]) == {r.pn} && OwnPairs([r]) == {(r.pn, r.pn)}
    ensures (set u | u in {r.pn} :: (u, u)) == {(r.pn, r.pn)} && (set u: nat | u in {} :: (u, u)) == {}
  {
    assert r in [r];
  }

  /** A datagram with one Initial, which the server reads when it expects number 1. */
  lemma OneContained(c: Crypto, data: bytes, i: InitialDatagram)
    requires Reads(c, data, c.derive(i.header.version, CLIENT_ID, false), 1, i) && InitialsIn(i.suffix) == []
    ensures InitialsIn(data) == [PacketIn(data)]
    ensures ReadPacket(c, CLIENT_ID, false, PacketIn(data), 1) == Some(ContentOf(i))
    ensures Contain(c, CLIENT_ID, InitialsIn(data), [ContentOf(i)])
  {
    hide InitialsIn, ReadPacket, PacketIn, Reads;
    FirstAndRest(c, CLIENT_ID, false, data, 1, i);
    var p := PacketIn(data);
    assert InitialsIn(data) == [p];
    assert Readable(c, CLIENT_ID, p) && Yields(c, CLIENT_ID, p, ContentOf(i));
    assert Contain(c, CLIENT_ID, [p][1..], [ContentOf(i)][1..]);
  }

  /** The second half of the client's first packet, with what stood behind that packet, is read as number 1. */
  lemma SecondHalf(c: Crypto, suffix: bytes) returns (half: Content)
    requires Lawful(c) && ClientSends(c, Start(CLIENT_ID), FirstData(c, suffix), FirstInitial(suffix))
    ensures var out := ClientStep(c, INITIAL_STATE, FirstData(c, suffix)).datagrams;
      && |out| == 2 && InitialsIn(out[1]) == [PacketIn(out[1])] + InitialsIn(suffix)
      && ReadPacket(c, CLIENT_ID, false, PacketIn(out[1]), 1) == Some(half) && half.pn == 1
  {
    hide ClientStep, WireBytes, Decodes, Sendable, BuildCryptoFrame, Reads, Lawful, SplitInitialCryptoFrames, Emits, ClientSends,
      InitialsIn, ReadPacket, PacketIn;
    HalfEmitted(suffix);
    var first := FirstInitial(suffix);
    var padding := NumbersReachTheWire(c, Start(CLIENT_ID), FirstData(c, suffix), first, 1, 1);
    var e := Emits(INITIAL_STATE, first)[1];
    var i := e.(plaintext := e.plaintext + Zeros(padding));
    FirstAndRest(c, CLIENT_ID, false, ClientStep(c, INITIAL_STATE, FirstData(c, suffix)).datagrams[1], 1, i);
    half := ContentOf(i);
  }

  lemma HalfEmitted(suffix: bytes)
    ensures |Emits(INITIAL_STATE, FirstInitial(suffix))| == 2
    ensures var e := Emits(INITIAL_STATE, FirstInitial(suffix))[1];
      e.pn == 1 && e.pnLen == 1 && e.header == HEADER && e.suffix == suffix && Decodes(1, 1, 1)
  {
    hide SplitInitialCryptoFrames, BuildCryptoFrame;
    FirstInitialSplits(suffix);
    SmallDecodes(1, 1, 1);
  }

  lemma OneIsAmbiguous()
    ensures Gapless(SplitWorld({1})) && !Unambiguous(SplitWorld({1})) && MapAckPN(1, SplitWorld({1}).rw.firstClientPN) == 0
  {
    assert (0, 1) in SplitWorld({1}).numbering && (1, 1) in SplitWorld({1}).numbering;
  }

  /**
   * A number used twice. The client numbers its second packet 1 and sends it under the connection ID the server chose, as
   * it must; it goes out as 1. The second half of its first packet went out as 1 before. A server that has seen packet 0
   * reads that number from both, and mapAckPN takes every acknowledgement of it for one of packet 0.
   */
  lemma NumberUsedTwice(c: Crypto, i: InitialDatagram) returns (ws: seq<World>, es: seq<Event>, half: Content)
    requires Lawful(c) && Sendable(i) && i.pn == 1 && i.header.dcid != CLIENT_ID && InitialsIn(i.suffix) == []
    ensures IsRun(c, ws, es) && ws == [Start(CLIENT_ID), SplitWorld({}), SplitWorld({1})]
    ensures |es| == 2 && es[0].ClientInitial? && es[1].ClientPassed?
    ensures Gapless(ws[2]) && !Unambiguous(ws[2]) && MapAckPN(1, ws[2].rw.firstClientPN) == 0
    ensures var out, out2 := ClientStep(c, INITIAL_STATE, es[0].data).datagrams, ClientStep(c, ws[1].rw, es[1].data).datagrams;
      && |out| == 2 && ReadPacket(c, CLIENT_ID, false, PacketIn(out[1]), 1) == Some(half) && half.pn == 1
      && |out2| == 1 && ReadPacket(c, CLIENT_ID, false, PacketIn(out2[0]), 1) == Some(ContentOf(i))
  {
    hide ClientStep, WireBytes, Decodes, Sendable, Reads, Lawful, InitialsIn, ReadPacket, PacketIn, SplitWorld, ClientSends, Gapless,
      Unambiguous;
    ws, es := StrayIsReached(c, i);
    half := SecondHalf(c, []);
    OneIsAmbiguous();
  }

  /**
   * The same in one datagram. Behind its first packet the client puts the second one, under the same connection ID. The
   * second datagram that the rewriter sends then holds number 1 twice: the second half, and the packet that passed as it is.
   */
  lemma NumberTwiceBehind(c: Crypto, i: InitialDatagram)
    returns (ws: seq<World>, es: seq<Event>, half: Content, second: bytes)
    requires Lawful(c) && Sendable(i) && i.pn == 1 && InitialsIn(i.suffix) == []
    ensures IsRun(c, ws, es) && ws == [Start(CLIENT_ID), SplitWorld({1})] && |es| == 1 && es[0].ClientInitial?
    ensures es[0].i == FirstInitial(WireBytes(c, i, c.derive(i.header.version, CLIENT_ID, false)))
    ensures Gapless(ws[1]) && !Unambiguous(ws[1])
    ensures var out := ClientStep(c, INITIAL_STATE, es[0].data).datagrams;
      && |out| == 2 && InitialsIn(out[1]) == [PacketIn(out[1]), second]
      && ReadPacket(c, CLIENT_ID, false, PacketIn(out[1]), 1) == Some(half) && half.pn == 1
      && ReadPacket(c, CLIENT_ID, false, second, 1) == Some(ContentOf(i))
  {
    hide ClientStep, WireBytes, Decodes, Sendable, Reads, Lawful, InitialsIn, ReadPacket, PacketIn, SplitWorld, ClientSends, Contain,
      Gapless, Unambiguous;
    var keys := c.derive(i.header.version, CLIENT_ID, false);
    var suffix := WireBytes(c, i, keys);
    SendableIsShort(i);
    SmallDecodes(1, i.pnLen, 1);
    Received(c, i, keys, 1);
    OneContained(c, suffix, i);
    OneOwn(ContentOf(i));
    ws, es := SplitIsReached(c, suffix, [ContentOf(i)]);
    half := SecondHalf(c, suffix);
    second := PacketIn(suffix);
    OneIsAmbiguous();
  }

  /**
   * A number left out. The client numbers its second packet 2, which goes out as 2; the server acknowledges just that,
   * the rewriter opens and rewrites the answer, and the client reads an acknowledgement of packet 1, which it never sent.
   */
  lemma UnsentAckAfterGap(c: Crypto, i: InitialDatagram, suffix: bytes) returns (ws: seq<World>, es: seq<Event>)
    requires Lawful(c) && Sendable(i) && i.pn == 2 && i.header.dcid != CLIENT_ID && InitialsIn(i.suffix) == []
    requires MIN_DATAGRAM <= 31 + |suffix| <= MAX_PLAINTEXT && InitialsIn(suffix) == []
    ensures IsRun(c, ws, es) && ws == [Start(CLIENT_ID), SplitWorld({}), SplitWorld({2})]
    ensures var data := AnswerData(c, VERSION_1, 0, 2, suffix);
      MisleadsAlone(c, SplitWorld({2}), data) && Handled(c, SplitWorld({2}).rw, data, ClientReads(c, CLIENT_ID, data, [0]))
  {
    hide ServerSends, Opens, PacketIn, IsRun, Lawful, InitialsIn, ClientReads, Honest, Safe, Sent, AckedBy, OneAck, Sendable,
      ServerStep, OnTheWire, Handled, StraysFollow, Gapless, AllRead, FurtherSafe, Told, OnlyAcks, AnswerData, RewrittenFirst,
      ReadPacket, ClientStep, WireBytes, ClientSends, FirstData, SplitWorld;
    SplitWorldParts({2});
    ws, es := StrayIsReached(c, i);
    var data := AnswerData(c, VERSION_1, 0, 2, suffix);
    OneAnswer(c, {2}, VERSION_1, 2, suffix);
    var rs := ClientReads(c, CLIENT_ID, data, [0]);
    TwoIsOut();
    AnswersAreHonest(SplitWorld({2}), rs, 2);
    AnswerIsHandled(c, {2}, data, rs, [0], 2);
    GapIsAcked(rs[0].value.plaintext);
    var padding := AckedWereSent(c, ws, es, 2, data, [0]);
  }

  lemma SplitWorldParts(untouched: set<nat>)
    ensures var w := SplitWorld(untouched); w.dcid == CLIENT_ID && w.rw.initialized && w.rw == SplitWorld({}).rw
  {
  }

  lemma TwoIsOut()
    ensures OnTheWire(SplitWorld({2}), 2)
  {
    assert (2, 2) in SplitWorld({2}).numbering;
  }

  lemma GapIsAcked(plaintext: bytes)
    requires AckedBy(plaintext, 2)
    ensures !StraysFollow(SplitWorld({2}), plaintext)
  {
    hide AckedBy;
    assert 2 in SplitWorld({2}).untouched && !Sent(SplitWorld({2}), 1);
  }
}
