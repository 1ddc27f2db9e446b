/** Safety of every run between two Retry resets: the client only ever sees acknowledgements of packets it sent. */
module AckSafety {
  import opened Bytes
  import opened Varint
  import opened PacketNumber
  import opened Framing
  import opened Acks
  import opened AckSize
  import opened Splitting
  import opened Packet
  import opened Padding
  import opened Datagram
  import opened Rewriter
  import opened RewriterSteps
  import opened Run
  import opened Coalesced

  /**
   * The rewriter; the connection ID the connection's keys come from; which client packet went out under which number so
   * far; and the client's numbers: those of the packets that were read since the rewriting started, and those of the
   * packets that went out untouched, before that or unread.
   */
  datatype World = World(rw: RewriterState, dcid: bytes, numbering: set<(nat, nat)>, read: set<nat>, untouched: set<nat>)

  /**
   * ClientInitial is a client datagram whose first Initial the rewriter reads, with what it reads and what the server
   * finds in the Initials behind it. ClientPassed is every other one, with what the server finds in all its Initials. On
   * the server's side the datagrams not read are those without an Initial, those whose first one is of another version or
   * does not decrypt, and before the rewriting has started all of them.
   */
  datatype Event =
    | ClientInitial(data: bytes, i: InitialDatagram, more: seq<Content>)
    | ClientPassed(data: bytes, more: seq<Content>)
    | ServerInitial(data: bytes, i: InitialDatagram)
    | ServerUnread(data: bytes)

  ghost function Start(dcid: bytes): (w: World) {
    World(INITIAL_STATE, dcid, {}, {}, {})
  }

  ghost predicate Sent(w: World, n: nat) {
    n in w.read || n in w.untouched
  }

  ghost predicate OnTheWire(w: World, m: nat) {
    exists n :: (n, m) in w.numbering
  }

  /** The pairs of client number and wire number that a client Initial adds. */
  ghost function Numbers(st: RewriterState, i: InitialDatagram): (ns: set<(nat, nat)>)
    requires 1 <= i.pnLen <= 4
  {
    set k | 0 <= k < |Emits(st, i)| :: (i.pn, Emits(st, i)[k].pn)
  }

  ghost function OwnNumbers(more: seq<Content>): (ns: set<nat>) {
    set r | r in more :: r.pn
  }

  /** Packets that go out as they are keep their numbers. */
  ghost function OwnPairs(more: seq<Content>): (ns: set<(nat, nat)>) {
    set r | r in more :: (r.pn, r.pn)
  }

  /** A client datagram whose first Initial is of the connection and read by the rewriter, which has started or starts with it. */
  ghost predicate ClientSends(c: Crypto, w: World, data: bytes, i: InitialDatagram) {
    ClientReadable(c, w.rw, data, i) && i.header.dcid == w.dcid && ClientState(w.rw, i).initialized
  }

  /** A client datagram that the rewriter passes on as it is. */
  ghost predicate Passes(c: Crypto, st: RewriterState, data: bytes) {
    ClientStep(c, st, data) == ClientResult(st, [data])
  }

  ghost function AfterInitial(c: Crypto, w: World, data: bytes, i: InitialDatagram, more: seq<Content>): (w': World)
    requires 1 <= i.pnLen <= 4
  {
    World(ClientStep(c, w.rw, data).state, w.dcid, w.numbering + Numbers(w.rw, i) + OwnPairs(more), w.read + {i.pn},
          w.untouched + OwnNumbers(more))
  }

  ghost function AfterPassed(w: World, more: seq<Content>): (w': World) {
    w.(numbering := w.numbering + OwnPairs(more), untouched := w.untouched + OwnNumbers(more))
  }

  ghost predicate Next(c: Crypto, w: World, e: Event, w': World) {
    match e
    case ClientInitial(data, i, more) =>
      && ClientSends(c, w, data, i) && Contain(c, w.dcid, InitialsIn(i.suffix), more)
      && w' == AfterInitial(c, w, data, i, more)
    case ClientPassed(data, more) =>
      && Passes(c, w.rw, data) && Contain(c, w.dcid, InitialsIn(data), more)
      && w' == AfterPassed(w, more)
    case ServerInitial(data, i) =>
      && ServerReadable(c, w.rw, data, i) && |data| <= MAX_PLAINTEXT
      && w' == w.(rw := ServerStep(c, w.rw, data).state)
    case ServerUnread(data) =>
      && !LocateQUICInitial(data).Retry? && !Opens(c, w.rw, data)
      && w' == w.(rw := ServerStep(c, w.rw, data).state)
  }

  ghost predicate IsRun(c: Crypto, ws: seq<World>, es: seq<Event>) {
    && |ws| == |es| + 1 && ws[0] == Start(ws[0].dcid)
    && forall k :: 0 <= k < |es| ==> Next(c, ws[k], es[k], ws[k + 1])
  }

  /** Packets read since the rewriting started are numbered by the shift; all others go out as they are. */
  ghost predicate Numbered(w: World, n: nat, m: nat) {
    || (n in w.untouched && m == n)
    || (w.rw.initialized && n in w.read && OnWire(n, m, w.rw.firstClientPN))
  }

  /** Every packet read since the rewriting started went out under the next number, the first one under its own as well. */
  ghost predicate Shifted(w: World) {
    if w.rw.initialized then
      && w.rw.firstClientPN in w.read && w.rw.clientDCID == w.dcid
      && forall n :: n in w.read && n >= w.rw.firstClientPN ==> (n, n + 1) in w.numbering
    else w.read == {}
  }

  ghost predicate Invariant(w: World) {
    && (forall n, m :: (n, m) in w.numbering ==> Numbered(w, n, m))
    && Shifted(w)
    && (forall u :: u in w.untouched ==> (u, u) in w.numbering)
    && (w.rw.initialized ==> w.rw.clientExpected <= MAX_PN)
    && w.rw.serverExpected <= MAX_PN
  }

  lemma NumbersFollow(c: Crypto, st: RewriterState, data: bytes, i: InitialDatagram, n: nat, m: nat)
    requires ClientReadable(c, st, data, i) && (n, m) in Numbers(st, i)
    ensures n == i.pn
    ensures ClientState(st, i).initialized ==> st.initialized || SplitInitialCryptoFrames(i.plaintext).Some?
    ensures if ClientState(st, i).initialized then OnWire(n, m, ClientState(st, i).firstClientPN) else n == m
  {
    hide SplitInitialCryptoFrames, ClientReadable, Emits, ClientState;
    ReadableParts(c, st, data, i);
    var k :| 0 <= k < |Emits(st, i)| && (n, m) == (i.pn, Emits(st, i)[k].pn);
    EmitsFollow(st, i, k);
  }

  lemma EmitsFollow(st: RewriterState, i: InitialDatagram, k: nat)
    requires 1 <= i.pnLen <= 4 && k < |Emits(st, i)|
    ensures var m := Emits(st, i)[k].pn;
      && (ClientState(st, i).initialized ==> st.initialized || SplitInitialCryptoFrames(i.plaintext).Some?)
      && if ClientState(st, i).initialized then OnWire(i.pn, m, ClientState(st, i).firstClientPN) else i.pn == m
  {
    hide SplitInitialCryptoFrames, SecondPNLen;
  }

  /** A packet read after the start, and the one that makes it, does go out under the next number. */
  lemma NumbersShift(st: RewriterState, i: InitialDatagram)
    requires 1 <= i.pnLen <= 4 && ClientState(st, i).initialized
    ensures ClientState(st, i).firstClientPN == if st.initialized then st.firstClientPN else i.pn
    ensures !st.initialized || i.pn > st.firstClientPN ==> (i.pn, i.pn + 1) in Numbers(st, i)
  {
    hide SplitInitialCryptoFrames, SecondPNLen;
    var es := Emits(st, i);
    if !st.initialized || i.pn > st.firstClientPN {
      assert es[|es| - 1].pn == i.pn + 1;
    }
  }

  lemma ClientKeepsInvariant(c: Crypto, w: World, data: bytes, i: InitialDatagram, more: seq<Content>)
    requires Lawful(c) && Invariant(w) && ClientSends(c, w, data, i)
    ensures 1 <= i.pnLen <= 4 && Invariant(AfterInitial(c, w, data, i, more))
  {
    ClientEmission(c, w.rw, data, i);
    ReadableParts(c, w.rw, data, i);
    ClientStateParts(w.rw, i);
    hide SplitInitialCryptoFrames, ClientStep, ClientReadable, OnWire, Numbers, ClientState, Numbered, Shifted, Sent, OwnPairs,
      OwnNumbers;
    var w' := AfterInitial(c, w, data, i, more);
    PairsStay(c, w, data, i, more, w');
    ShiftedStays(w, i, w');
    OwnPairsKept(w, more, w');
    AssembleInvariant(w, i, w');
  }

  lemma PairsStay(c: Crypto, w: World, data: bytes, i: InitialDatagram, more: seq<Content>, w': World)
    requires Invariant(w) && ClientSends(c, w, data, i)
    requires 1 <= i.pnLen <= 4 && i.pn + 1 < MAX_PN && w'.rw == ClientState(w.rw, i)
    requires w'.numbering == w.numbering + Numbers(w.rw, i) + OwnPairs(more)
    requires w'.read == w.read + {i.pn} && w'.untouched == w.untouched + OwnNumbers(more)
    ensures forall n, m :: (n, m) in w'.numbering ==> Numbered(w', n, m)
  {
    ClientStateParts(w.rw, i);
    hide SplitInitialCryptoFrames, ClientReadable, OnWire, Numbers, ClientState, Sent;
    forall n, m | (n, m) in w'.numbering
      ensures Numbered(w', n, m)
    {
      if (n, m) in Numbers(w.rw, i) {
        NumbersFollow(c, w.rw, data, i, n, m);
      } else if (n, m) in w.numbering {
        assert Numbered(w, n, m);
      }
    }
  }

  lemma ShiftedStays(w: World, i: InitialDatagram, w': World)
    requires Shifted(w) && 1 <= i.pnLen <= 4 && i.pn + 1 < MAX_PN
    requires w'.rw == ClientState(w.rw, i) && w'.rw.initialized && i.header.dcid == w.dcid == w'.dcid
    requires w.numbering <= w'.numbering && Numbers(w.rw, i) <= w'.numbering && w'.read == w.read + {i.pn}
    ensures Shifted(w')
  {
    hide Numbers, ClientState, Emits, OnWire;
    ClientStateParts(w.rw, i);
    NumbersShift(w.rw, i);
    if !w.rw.initialized || i.pn > w.rw.firstClientPN {
      assert (i.pn, i.pn + 1) in Numbers(w.rw, i);
    }
    NextNumbered(w, i.pn, w');
  }

  lemma NextNumbered(w: World, pn: nat, w': World)
    requires Shifted(w) && w'.rw.initialized && w'.rw.clientDCID == w'.dcid
    requires w.numbering <= w'.numbering && w'.read == w.read + {pn}
    requires w.rw.initialized ==> w'.rw.firstClientPN == w.rw.firstClientPN
    requires !w.rw.initialized ==> w'.rw.firstClientPN == pn
    requires !w.rw.initialized || pn > w.rw.firstClientPN ==> (pn, pn + 1) in w'.numbering
    ensures Shifted(w')
  {
    forall n | n in w'.read && n >= w'.rw.firstClientPN
      ensures (n, n + 1) in w'.numbering
    {
      if n != pn || (w.rw.initialized && pn <= w.rw.firstClientPN) {
        assert n in w.read && (n, n + 1) in w.numbering;
      }
    }
  }

  lemma OwnPairsKept(w: World, more: seq<Content>, w': World)
    requires forall u :: u in w.untouched ==> (u, u) in w.numbering
    requires w.numbering + OwnPairs(more) <= w'.numbering && w'.untouched == w.untouched + OwnNumbers(more)
    ensures forall u :: u in w'.untouched ==> (u, u) in w'.numbering
  {
  }

  lemma AssembleInvariant(w: World, i: InitialDatagram, w': World)
    requires Invariant(w) && Shifted(w') && i.pn + 1 < MAX_PN && w'.rw == ClientState(w.rw, i)
    requires forall u :: u in w'.untouched ==> (u, u) in w'.numbering
    requires forall n, m :: (n, m) in w'.numbering ==> Numbered(w', n, m)
    ensures Invariant(w')
  {
    ClientStateParts(w.rw, i);
    hide ClientState, Numbered, Shifted;
  }

  lemma PassedKeepsInvariant(w: World, more: seq<Content>)
    requires Invariant(w)
    ensures Invariant(AfterPassed(w, more))
  {
    var w' := AfterPassed(w, more);
    OwnPairsKept(w, more, w');
    hide OnWire;
    forall n, m | (n, m) in w'.numbering
      ensures Numbered(w', n, m)
    {
      if (n, m) in w.numbering {
        assert Numbered(w, n, m);
      }
    }
  }

  /** What a client Initial may change in the state. */
  lemma ClientStateParts(st: RewriterState, i: InitialDatagram)
    requires i.pn + 1 < MAX_PN
    ensures var st' := ClientState(st, i);
      && (st.initialized ==> st'.initialized && st'.firstClientPN == st.firstClientPN)
      && (!st.initialized && st'.initialized ==>
            SplitInitialCryptoFrames(i.plaintext).Some? && st'.firstClientPN == i.pn && st'.serverExpected == 0
            && st'.clientDCID == i.header.dcid)
      && (st.initialized ==> st'.clientDCID == st.clientDCID)
      && (st'.serverExpected == st.serverExpected || st'.serverExpected == 0)
      && (st.initialized && st.clientExpected <= MAX_PN ==> st'.clientExpected <= MAX_PN)
      && (!st.initialized && st'.initialized ==> st'.clientExpected <= MAX_PN)
  {
    hide SplitInitialCryptoFrames;
  }

  lemma StepKeepsInvariant(c: Crypto, w: World, e: Event, w': World)
    requires Lawful(c) && Invariant(w) && Next(c, w, e, w')
    ensures Invariant(w') && w'.dcid == w.dcid
  {
    hide ClientStep, ServerStep, ClientSends, LocateQUICInitial, Opens, OnWire, Reads, Invariant, Contain, InitialsIn;
    match e
    case ClientInitial(data, i, more) => ClientKeepsInvariant(c, w, data, i, more);
    case ClientPassed(_, more) => PassedKeepsInvariant(w, more);
    case ServerInitial(data, i) =>
      var padding := ServerEmission(c, w.rw, data, i);
      ServerKeepsInvariant(w, i, w');
    case ServerUnread(data) => UnopenedPasses(c, w.rw, data);
  }

  lemma ServerKeepsInvariant(w: World, i: InitialDatagram, w': World)
    requires Invariant(w) && i.pn < MAX_PN && w' == w.(rw := ServerState(w.rw, i))
    ensures Invariant(w')
  {
    hide OnWire, Frames;
    forall n, m | (n, m) in w'.numbering
      ensures Numbered(w', n, m)
    {
      assert Numbered(w, n, m);
    }
  }

  lemma StartIsInvariant(dcid: bytes)
    ensures Invariant(Start(dcid))
  {
  }

  lemma {:induction false} RunKeepsInvariant(c: Crypto, ws: seq<World>, es: seq<Event>, k: nat)
    requires Lawful(c) && IsRun(c, ws, es) && k < |ws|
    ensures Invariant(ws[k]) && ws[k].dcid == ws[0].dcid
  {
    hide Next, Invariant, Start;
    if k == 0 {
      StartIsInvariant(ws[0].dcid);
    } else {
      RunKeepsInvariant(c, ws, es, k - 1);
      StepKeepsInvariant(c, ws[k - 1], es[k - 1], ws[k]);
    }
  }

  // ---- what the numbers on the wire stand for -----------------------------

  /** No number on the wire stands for two client packets. */
  ghost predicate Unambiguous(w: World) {
    forall n, n', m :: (n, m) in w.numbering && (n', m) in w.numbering ==> n == n'
  }

  /** mapAckPN recovers the client packet behind every number on the wire. */
  ghost predicate Recovered(w: World) {
    forall n, m :: (n, m) in w.numbering ==> MapAckPN(m, w.rw.firstClientPN) == n
  }

  /** A packet went out untouched right after one that was read and shifted. */
  ghost predicate Overlaps(w: World) {
    w.rw.initialized && exists u :: u in w.untouched && u > w.rw.firstClientPN && u - 1 in w.read
  }

  /** No packet behind the split one went out untouched. */
  ghost predicate AllRead(w: World) {
    w.rw.initialized ==> forall u :: u in w.untouched ==> u <= w.rw.firstClientPN
  }

  /** From the split packet on the client has left out no number. */
  ghost predicate Gapless(w: World) {
    w.rw.initialized ==> forall n: nat :: Sent(w, n) && n > w.rw.firstClientPN ==> Sent(w, n - 1)
  }

  /**
   * Exactly when the numbering stays invertible. In every run a number on the wire stands for one client packet if and
   * only if no packet went out untouched right after one that was shifted, and mapAckPN recovers all of them if and only if
   * no packet behind the split one went out untouched at all. For a client that leaves out no number the two are the same.
   */
  lemma NumberingIsInvertible(c: Crypto, ws: seq<World>, es: seq<Event>, k: nat)
    requires Lawful(c) && IsRun(c, ws, es) && k < |ws|
    ensures Unambiguous(ws[k]) <==> !Overlaps(ws[k])
    ensures ws[k].rw.initialized ==> (Recovered(ws[k]) <==> AllRead(ws[k]))
    ensures Gapless(ws[k]) ==> (Unambiguous(ws[k]) <==> AllRead(ws[k]))
  {
    var w := ws[k];
    RunKeepsInvariant(c, ws, es, k);
    hide IsRun;
    UnambiguousExactly(w);
    if w.rw.initialized {
      RecoveredExactly(w);
      if Gapless(w) && !AllRead(w) {
        var u :| u in w.untouched && u > w.rw.firstClientPN;
        FirstUntouchedOverlaps(w, u);
      }
    }
  }

  lemma UnambiguousExactly(w: World)
    requires Invariant(w)
    ensures Unambiguous(w) <==> !Overlaps(w)
  {
    if Overlaps(w) {
      var u :| u in w.untouched && u > w.rw.firstClientPN && u - 1 in w.read;
      assert (u, u) in w.numbering && (u - 1, u) in w.numbering;
    } else {
      forall n, n', m | (n, m) in w.numbering && (n', m) in w.numbering
        ensures n == n'
      {
        assert Numbered(w, n, m) && Numbered(w, n', m);
      }
    }
  }

  lemma RecoveredExactly(w: World)
    requires Invariant(w) && w.rw.initialized
    ensures Recovered(w) <==> AllRead(w)
  {
    if AllRead(w) {
      forall n, m | (n, m) in w.numbering
        ensures MapAckPN(m, w.rw.firstClientPN) == n
      {
        assert Numbered(w, n, m);
      }
    } else {
      var u :| u in w.untouched && u > w.rw.firstClientPN;
      assert (u, u) in w.numbering;
    }
  }

  /** Going down from an untouched packet without a gap, one meets a packet that was read. */
  lemma {:induction false} FirstUntouchedOverlaps(w: World, u: nat)
    requires Invariant(w) && w.rw.initialized && Gapless(w) && u in w.untouched && u > w.rw.firstClientPN
    ensures Overlaps(w)
    decreases u
  {
    assert Sent(w, u) && Sent(w, u - 1);
    if u - 1 !in w.read {
      FirstUntouchedOverlaps(w, u - 1);
    }
  }

  lemma EmittedDecodes(st: RewriterState, i: InitialDatagram, k: nat)
    requires Sendable(i) && i.pn + 1 < MAX_PN && k < |Emits(st, i)|
    ensures var e := Emits(st, i)[k]; 1 <= e.pnLen <= 4 && e.pn < MAX_PN && Decodes(e.pn, e.pnLen, e.pn)
  {
    hide SplitInitialCryptoFrames, SkippedPackets;
    var e := Emits(st, i)[k];
    PowerValues();
    DecodeExact(e.pn, e.pnLen, e.pn);
  }

  /**
   * Every number paired in a run did go out: what the rewriter sends for a client Initial is, packet by packet, a datagram
   * that any receiver decoding that number reads as the listed packet with zero padding.
   */
  lemma NumbersReachTheWire(c: Crypto, w: World, data: bytes, i: InitialDatagram, k: nat, expected: nat) returns (padding: nat)
    requires Lawful(c) && ClientSends(c, w, data, i)
    requires 1 <= i.pnLen <= 4 && k < |Emits(w.rw, i)|
    requires Decodes(Emits(w.rw, i)[k].pn, Emits(w.rw, i)[k].pnLen, expected)
    ensures var e := Emits(w.rw, i)[k];
      var out := ClientStep(c, w.rw, data).datagrams;
      && k < |out| == |Emits(w.rw, i)|
      && Reads(c, out[k], ClientKeys(c, i.header), expected, e.(plaintext := e.plaintext + Zeros(padding)))
  {
    var keys := ClientKeys(c, i.header);
    var e := Emits(w.rw, i)[k];
    ClientEmission(c, w.rw, data, i);
    hide ClientStep, Emits, ClientSends, Reads, Decodes, WireBytes;
    var out := ClientStep(c, w.rw, data).datagrams;
    assert Sends(c, out[k], e, keys, data, i);
    padding := 0;
    if IsPadded(c, out[k], e, keys) {
      padding :| PaddedWith(c, out[k], e, keys, padding);
      Received(c, e.(plaintext := e.plaintext + Zeros(padding)), keys, expected);
    } else {
      assert e.plaintext + Zeros(0) == e.plaintext;
      ReadsElsewhere(c, data, keys, ClientExpected(w.rw), i, expected);
    }
  }

  // ---- the server's packets -----------------------------------------------

  /**
   * What the client reads from the Initials of a datagram, one after the other, when it expects these numbers. Nothing
   * where a packet does not decrypt.
   */
  ghost function ClientReads(c: Crypto, dcid: bytes, data: bytes, es: seq<nat>): (rs: seq<Option<Content>>)
    requires |es| == |InitialsIn(data)|
    ensures |rs| == |es|
  {
    seq(|es|, k requires 0 <= k < |es| => ReadPacket(c, dcid, true, InitialsIn(data)[k], es[k]))
  }

  /**
   * A datagram on its way to a client that expects these numbers. The rewriter, which may expect another one, opens the
   * first Initial as the client does or not at all, as an authenticated cipher has it.
   */
  ghost predicate ServerSends(c: Crypto, w: World, data: bytes, es: seq<nat>) {
    && |data| <= MAX_PLAINTEXT && |es| == |InitialsIn(data)|
    && (Opens(c, w.rw, data) ==>
          && w.rw.serverExpected < MAX_PN && |es| > 0
          && ReadPacket(c, w.dcid, true, PacketIn(data), es[0])
             == ReadPacket(c, w.dcid, true, PacketIn(data), w.rw.serverExpected))
  }

  /** Some Initial acknowledges n. */
  ghost predicate AckedIn(rs: seq<Option<Content>>, n: nat) {
    exists k :: 0 <= k < |rs| && rs[k].Some? && AckedBy(rs[k].value.plaintext, n)
  }

  /** The server acknowledges only numbers on the wire. */
  ghost predicate Honest(w: World, rs: seq<Option<Content>>) {
    forall m: nat :: AckedIn(rs, m) ==> OnTheWire(w, m)
  }

  /** The client is told only of packets it sent. */
  ghost predicate Safe(w: World, rs: seq<Option<Content>>) {
    forall n: nat :: AckedIn(rs, n) ==> Sent(w, n)
  }

  ghost predicate AcksOnlySent(w: World, plaintext: bytes) {
    forall n: nat :: AckedBy(plaintext, n) ==> Sent(w, n)
  }

  /** So do the Initials behind the first one, which the rewriter does not look at. */
  ghost predicate FurtherSafe(w: World, rs: seq<Option<Content>>) {
    forall k :: 0 < k < |rs| && rs[k].Some? ==> AcksOnlySent(w, rs[k].value.plaintext)
  }

  /** Padding can give the rewritten payload's packet the size it must have. */
  ghost predicate SizeReachable(st: RewriterState, data: bytes, r: Content) {
    var rewritten := RewriteAckFrames(r.plaintext, st.firstClientPN);
    rewritten.Some? && rewritten.value != r.plaintext ==>
      Reachable(r.header, r.pnLen, |rewritten.value|, TargetSize(|PacketIn(data)|, |data|))
  }

  /** The client reads the first Initial. */
  ghost predicate FirstRead(rs: seq<Option<Content>>) {
    rs != [] && rs[0].Some?
  }

  /** The rewriting does take place where it is due. */
  ghost predicate Handled(c: Crypto, st: RewriterState, data: bytes, rs: seq<Option<Content>>) {
    st.initialized && FirstRead(rs) ==> Opens(c, st, data) && SizeReachable(st, data, rs[0].value)
  }

  /** The plaintext the client decrypts from what the rewriter makes of a payload. */
  ghost function ClientPlaintext(st: RewriterState, plaintext: bytes, padding: nat): (p: bytes)
  {
    var rewritten := RewriteAckFrames(plaintext, st.firstClientPN);
    if st.initialized && rewritten.Some? && rewritten.value != plaintext then rewritten.value + Zeros(padding)
    else plaintext
  }

  /** What the client reads when the first Initial is rewritten: all others as they were. */
  ghost function RewrittenFirst(st: RewriterState, rs: seq<Option<Content>>, padding: nat): (rs': seq<Option<Content>>)
    ensures |rs'| == |rs|
  {
    if FirstRead(rs) then rs[0 := Some(rs[0].value.(plaintext := ClientPlaintext(st, rs[0].value.plaintext, padding)))] else rs
  }

  lemma OpenedIsReadable(c: Crypto, w: World, data: bytes, es: seq<nat>) returns (i: InitialDatagram)
    requires Lawful(c) && Shifted(w) && ServerSends(c, w, data, es) && Opens(c, w.rw, data)
    ensures ServerReadable(c, w.rw, data, i) && Reads(c, data, ServerKeys(c, w.rw), es[0], i)
    ensures ServerKeys(c, w.rw) == c.derive(i.header.version, w.dcid, true)
    ensures ReadPacket(c, w.dcid, true, PacketIn(data), es[0]) == Some(ContentOf(i))
    ensures InitialsIn(data) == [PacketIn(data)] + InitialsIn(i.suffix)
  {
    hide LocateQUICInitial, ParseInitialPacket, DecryptInitial, Sendable, PacketIn, InitialsIn, Decodes;
    i := ReadableIsSendable(c, data, ServerKeys(c, w.rw), w.rw.serverExpected);
    PayloadWithin(c, data, ServerKeys(c, w.rw), w.rw.serverExpected, i);
    FirstAndRest(c, w.dcid, true, data, w.rw.serverExpected, i);
  }

  /**
   * The client reads the first Initial rewritten if the rewriting takes place and as the server made it otherwise, and
   * every further one as the server made it.
   */
  lemma ClientSees(c: Crypto, w: World, data: bytes, es: seq<nat>) returns (padding: nat)
    requires Lawful(c) && Shifted(w) && ServerSends(c, w, data, es)
    ensures var out := ServerStep(c, w.rw, data).datagram;
      var rs := ClientReads(c, w.dcid, data, es);
      && |InitialsIn(out)| == |es|
      && ClientReads(c, w.dcid, out, es) == if Handled(c, w.rw, data, rs) then RewrittenFirst(w.rw, rs, padding) else rs
  {
    hide ServerStep, Decodes, RewriteAckFrames, WireBytes, Sendable, TargetSize, Reachable, PacketIn, DecryptInitial,
      ParseInitialPacket, LocateQUICInitial, Opens, ServerReadable, ReadPacket, InitialsIn, Reads;
    padding := 0;
    if Opens(c, w.rw, data) {
      var i := OpenedIsReadable(c, w, data, es);
      padding := OpenedClientSees(c, w, data, es, i);
    } else {
      UnopenedKept(c, w.rw, data);
      var rs := ClientReads(c, w.dcid, data, es);
      if FirstRead(rs) && !w.rw.initialized {
        assert rs[0].value.(plaintext := rs[0].value.plaintext) == rs[0].value;
        assert RewrittenFirst(w.rw, rs, 0) == rs;
      }
    }
  }

  lemma UnopenedKept(c: Crypto, st: RewriterState, data: bytes)
    requires !Opens(c, st, data)
    ensures ServerStep(c, st, data).datagram == data
  {
    if !LocateQUICInitial(data).Retry? {
      UnopenedPasses(c, st, data);
    }
    hide LocateQUICInitial, ParseInitialPacket, DecryptInitial, ServerPacketStep;
  }

  lemma OpenedClientSees(c: Crypto, w: World, data: bytes, es: seq<nat>, i: InitialDatagram) returns (padding: nat)
    requires Lawful(c) && Opens(c, w.rw, data) && |data| <= MAX_PLAINTEXT && |es| == |InitialsIn(data)| > 0
    requires ServerReadable(c, w.rw, data, i) && Reads(c, data, ServerKeys(c, w.rw), es[0], i)
    requires ServerKeys(c, w.rw) == c.derive(i.header.version, w.dcid, true)
    requires ReadPacket(c, w.dcid, true, PacketIn(data), es[0]) == Some(ContentOf(i))
    requires InitialsIn(data) == [PacketIn(data)] + InitialsIn(i.suffix)
    ensures var out := ServerStep(c, w.rw, data).datagram;
      var rs := ClientReads(c, w.dcid, data, es);
      && |InitialsIn(out)| == |es|
      && ClientReads(c, w.dcid, out, es) == if Handled(c, w.rw, data, rs) then RewrittenFirst(w.rw, rs, padding) else rs
  {
    hide ServerStep, Decodes, RewriteAckFrames, Sendable, TargetSize, Reachable, PacketIn, LocateQUICInitial, Opens,
      ServerReadable, ReadPacket, InitialsIn, Reads;
    padding := ReadClientSees(c, w.rw, data, i, es[0]);
    var rs := ClientReads(c, w.dcid, data, es);
    assert rs[0] == Some(ContentOf(i));
    var out := ServerStep(c, w.rw, data).datagram;
    if SizeReachable(w.rw, data, ContentOf(i)) {
      var j := i.(plaintext := ClientPlaintext(w.rw, i.plaintext, padding));
      FirstAndRest(c, w.dcid, true, out, es[0], j);
      SameBehind(c, w.dcid, data, out, es, PacketIn(data), PacketIn(out), InitialsIn(i.suffix), ContentOf(j));
      assert RewrittenFirst(w.rw, rs, padding) == rs[0 := Some(ContentOf(j))];
    }
  }

  lemma SameBehind(c: Crypto, dcid: bytes, data: bytes, out: bytes, es: seq<nat>, p: bytes, q: bytes, further: seq<bytes>, r: Content)
    requires |es| == |InitialsIn(data)| && InitialsIn(data) == [p] + further && InitialsIn(out) == [q] + further
    requires ReadPacket(c, dcid, true, q, es[0]) == Some(r)
    ensures ClientReads(c, dcid, out, es) == ClientReads(c, dcid, data, es)[0 := Some(r)]
  {
    hide ReadPacket, InitialsIn;
  }

  lemma ReadClientSees(c: Crypto, st: RewriterState, data: bytes, i: InitialDatagram, expected: nat) returns (padding: nat)
    requires Lawful(c) && ServerReadable(c, st, data, i) && |data| <= MAX_PLAINTEXT
    requires Reads(c, data, ServerKeys(c, st), expected, i)
    ensures st.initialized
    ensures var out := ServerStep(c, st, data).datagram;
      if SizeReachable(st, data, ContentOf(i))
      then Reads(c, out, ServerKeys(c, st), expected, i.(plaintext := ClientPlaintext(st, i.plaintext, padding)))
      else out == data
  {
    padding := ServerEmission(c, st, data, i);
    DecryptedFits(c, PacketIn(data), ServerKeys(c, st), expected);
    hide ServerStep, Decodes, RewriteAckFrames, WireBytes, Sendable, TargetSize, Reachable, PacketIn, DecryptInitial,
      ParseInitialPacket, LocateQUICInitial;
    if ServerRewrites(st, data, i) {
      var rewritten := RewriteAckFrames(i.plaintext, st.firstClientPN).value;
      Received(c, i.(plaintext := rewritten + Zeros(padding)), ServerKeys(c, st), expected);
    }
    assert i.(plaintext := i.plaintext) == i;
  }

  /** What that plaintext acknowledges: the images of what the server acknowledged. */
  lemma ClientPlaintextAcks(st: RewriterState, plaintext: bytes, padding: nat, n: nat)
    ensures AckedBy(ClientPlaintext(st, plaintext, padding), n) <==> Told(st, plaintext, n)
  {
    hide Frames, RewriteAckFrames, FramesAck;
    RewriteIsFramewise(plaintext, st.firstClientPN);
    if Frames(plaintext).Some? {
      RewrittenAcks(plaintext, st.firstClientPN, n);
      RewriteExact(plaintext, st.firstClientPN);
      PaddingAcksNothing(RewriteAckFrames(plaintext, st.firstClientPN).value, padding, n);
    }
  }

  /** n is the image of a number the server acknowledged. */
  ghost predicate Told(st: RewriterState, plaintext: bytes, n: nat) {
    if st.initialized then AckedByImage(plaintext, st.firstClientPN, n) else AckedBy(plaintext, n)
  }

  /** Of the packets that went out untouched behind the split one, those acknowledged come right after one that was sent. */
  ghost predicate StraysFollow(w: World, plaintext: bytes) {
    w.rw.initialized ==>
      forall u: nat :: u in w.untouched && u > w.rw.firstClientPN && AckedBy(plaintext, u) ==> Sent(w, u - 1)
  }

  /** Only numbers on the wire are acknowledged. */
  ghost predicate AcksOnWire(w: World, plaintext: bytes) {
    forall m: nat :: AckedBy(plaintext, m) ==> OnTheWire(w, m)
  }

  lemma ImageWasSent(w: World, plaintext: bytes, n: nat)
    requires Invariant(w) && AcksOnWire(w, plaintext) && StraysFollow(w, plaintext) && Told(w.rw, plaintext, n)
    ensures Sent(w, n)
  {
    hide AckedBy;
    var m: nat :| AckedBy(plaintext, m) && (if w.rw.initialized then MapAckPN(m, w.rw.firstClientPN) == n else m == n);
    assert OnTheWire(w, m);
    var n' :| (n', m) in w.numbering;
    assert Numbered(w, n', m);
    MapInvertsNumbering(n', m, w.rw.firstClientPN);
  }

  /** Where one comes after a gap, the client is told of the number before it. */
  lemma StrayIsMisread(w: World, plaintext: bytes) returns (n: nat)
    requires !StraysFollow(w, plaintext)
    ensures Told(w.rw, plaintext, n) && !Sent(w, n)
  {
    hide AckedBy;
    var u: nat :| u in w.untouched && u > w.rw.firstClientPN && AckedBy(plaintext, u) && !Sent(w, u - 1);
    n := u - 1;
    assert MapAckPN(u, w.rw.firstClientPN) == n;
  }

  lemma ImagesSentExactly(w: World, plaintext: bytes, padding: nat)
    requires Invariant(w) && AcksOnWire(w, plaintext)
    ensures AcksOnlySent(w, ClientPlaintext(w.rw, plaintext, padding)) <==> StraysFollow(w, plaintext)
  {
    hide AckedBy, Invariant, AcksOnWire, Sent, StraysFollow, Told, ClientPlaintext;
    if StraysFollow(w, plaintext) {
      forall n: nat | AckedBy(ClientPlaintext(w.rw, plaintext, padding), n)
        ensures Sent(w, n)
      {
        ClientPlaintextAcks(w.rw, plaintext, padding, n);
        ImageWasSent(w, plaintext, n);
      }
    } else {
      var n := StrayIsMisread(w, plaintext);
      ClientPlaintextAcks(w.rw, plaintext, padding, n);
    }
  }

  lemma FollowersFollow(w: World, plaintext: bytes)
    requires Gapless(w) || AllRead(w)
    ensures StraysFollow(w, plaintext)
  {
    hide AckedBy;
    if w.rw.initialized {
      forall u: nat | u in w.untouched && u > w.rw.firstClientPN
        ensures Sent(w, u - 1)
      {
        assert Sent(w, u);
      }
    }
  }

  /** The first Initial, and those behind it. */
  lemma SafeByParts(w: World, rs: seq<Option<Content>>)
    ensures Safe(w, rs) <==> (FirstRead(rs) ==> AcksOnlySent(w, rs[0].value.plaintext)) && FurtherSafe(w, rs)
  {
    hide AckedBy, Sent;
    if Safe(w, rs) {
      forall k, n: nat | 0 <= k < |rs| && rs[k].Some? && AckedBy(rs[k].value.plaintext, n)
        ensures Sent(w, n)
      {
        assert AckedIn(rs, n);
      }
    }
  }

  lemma HonestByParts(w: World, rs: seq<Option<Content>>, k: nat)
    requires Honest(w, rs) && k < |rs| && rs[k].Some?
    ensures AcksOnWire(w, rs[k].value.plaintext)
  {
    hide AckedBy, OnTheWire;
    forall m: nat | AckedBy(rs[k].value.plaintext, m)
      ensures OnTheWire(w, m)
    {
      assert AckedIn(rs, m);
    }
  }

  /** Before the rewriting starts every number on the wire is the client's own. */
  lemma UnstartedIsSafe(w: World, rs: seq<Option<Content>>)
    requires Invariant(w) && Honest(w, rs) && !w.rw.initialized
    ensures Safe(w, rs)
  {
    hide AckedIn;
    forall n: nat | AckedIn(rs, n)
      ensures Sent(w, n)
    {
      assert OnTheWire(w, n);
      var n' :| (n', n) in w.numbering;
      assert Numbered(w, n', n);
    }
  }

  /**
   * Acknowledgement safety (section 13.1 of RFC 9000). At every point of every run, before the rewriting starts and
   * after, take a server datagram whose Initials, as the client would read them, acknowledge only numbers on the wire. If
   * it is handled, the client reads from the first Initial the images of the numbers acknowledged there, and from every
   * further one what the server wrote. It is told only of packets it sent if and only if the first acknowledges no packet
   * that went out untouched after a gap, and the further ones, which are not rewritten, name only numbers it sent. With
   * one Initial to the datagram, a client that leaves out no number is always safe, and so is one whose packets are all
   * read.
   */
  lemma AckedWereSent(c: Crypto, ws: seq<World>, es: seq<Event>, k: nat, data: bytes, expected: seq<nat>)
    returns (padding: nat)
    requires Lawful(c) && IsRun(c, ws, es) && k < |ws| && ServerSends(c, ws[k], data, expected)
    requires var rs := ClientReads(c, ws[k].dcid, data, expected); Honest(ws[k], rs) && Handled(c, ws[k].rw, data, rs)
    ensures var rs := ClientReads(c, ws[k].dcid, data, expected);
      var out := ServerStep(c, ws[k].rw, data).datagram;
      && |InitialsIn(out)| == |expected|
      && var rs' := ClientReads(c, ws[k].dcid, out, expected);
      && rs' == RewrittenFirst(ws[k].rw, rs, padding)
      && (FirstRead(rs) ==> forall n: nat ::
            AckedBy(rs'[0].value.plaintext, n) <==> Told(ws[k].rw, rs[0].value.plaintext, n))
      && (Safe(ws[k], rs') <==>
            (FirstRead(rs) ==> StraysFollow(ws[k], rs[0].value.plaintext)) && FurtherSafe(ws[k], rs))
      && (!ws[k].rw.initialized || (|rs| <= 1 && (Gapless(ws[k]) || AllRead(ws[k]))) ==> Safe(ws[k], rs'))
  {
    var w := ws[k];
    RunKeepsInvariant(c, ws, es, k);
    hide ServerStep, Handled, IsRun, AckedBy, ClientPlaintext, Invariant, ServerSends, Honest, Sent, StraysFollow, Gapless, AllRead,
      Told, Safe, FurtherSafe, ClientReads, InitialsIn, Shifted, AcksOnlySent, AcksOnWire;
    InvariantParts(w);
    padding := ClientSees(c, w, data, expected);
    var rs := ClientReads(c, w.dcid, data, expected);
    RewrittenSafeExactly(w, rs, padding);
    if FirstRead(rs) {
      forall n: nat
        ensures AckedBy(ClientPlaintext(w.rw, rs[0].value.plaintext, padding), n) <==> Told(w.rw, rs[0].value.plaintext, n)
      {
        ClientPlaintextAcks(w.rw, rs[0].value.plaintext, padding, n);
      }
    }
  }

  lemma InvariantParts(w: World)
    requires Invariant(w)
    ensures Shifted(w)
  {
  }

  lemma RewrittenSafeExactly(w: World, rs: seq<Option<Content>>, padding: nat)
    requires Invariant(w) && Honest(w, rs)
    ensures var rs' := RewrittenFirst(w.rw, rs, padding);
      && (Safe(w, rs') <==> (FirstRead(rs) ==> StraysFollow(w, rs[0].value.plaintext)) && FurtherSafe(w, rs))
      && (!w.rw.initialized || (|rs| <= 1 && (Gapless(w) || AllRead(w))) ==> Safe(w, rs'))
  {
    hide AckedBy, ClientPlaintext, Invariant, Honest, Sent, StraysFollow, Gapless, AllRead, Safe, AcksOnlySent, AcksOnWire;
    var rs' := RewrittenFirst(w.rw, rs, padding);
    SafeByParts(w, rs');
    if FirstRead(rs) {
      HonestByParts(w, rs, 0);
      ImagesSentExactly(w, rs[0].value.plaintext, padding);
      if Gapless(w) || AllRead(w) {
        FollowersFollow(w, rs[0].value.plaintext);
      }
    }
    if !w.rw.initialized {
      UnstartedIsSafe(w, rs);
      UnstartedIsKept(w, rs, padding);
    }
    FurtherAsBefore(w, rs, rs');
  }

  lemma FurtherAsBefore(w: World, rs: seq<Option<Content>>, rs': seq<Option<Content>>)
    requires |rs'| == |rs| && forall k :: 0 < k < |rs| ==> rs'[k] == rs[k]
    ensures FurtherSafe(w, rs') <==> FurtherSafe(w, rs)
  {
    hide AcksOnlySent;
  }

  lemma UnstartedIsKept(w: World, rs: seq<Option<Content>>, padding: nat)
    requires !w.rw.initialized
    ensures RewrittenFirst(w.rw, rs, padding) == rs
  {
    if FirstRead(rs) {
      assert rs[0].value.(plaintext := rs[0].value.plaintext) == rs[0].value;
    }
  }

  // ---- the packets the theorems are about ---------------------------------

  /**
   * Any client Initial of the connection whose number the rewriter decodes can be sent in a run, with anything behind it,
   * once the rewriting has started or if it starts it.
   */
  lemma ClientCanSend(c: Crypto, w: World, i: InitialDatagram, more: seq<Content>)
    requires Lawful(c) && Sendable(i) && |i.plaintext| <= MAX_PLAINTEXT && i.pn + 1 < MAX_PN
    requires Recorded(w.rw, i.header) && i.header.dcid == w.dcid && Decodes(i.pn, i.pnLen, ClientExpected(w.rw))
    requires w.rw.initialized || SplitInitialCryptoFrames(i.plaintext).Some?
    requires Contain(c, w.dcid, InitialsIn(i.suffix), more)
    ensures var data := WireBytes(c, i, c.derive(i.header.version, w.dcid, false));
      ClientSends(c, w, data, i) && Next(c, w, ClientInitial(data, i, more), AfterInitial(c, w, data, i, more))
  {
    hide Reads, WireBytes, Sendable, Decodes, SplitInitialCryptoFrames, ClientStep, Contain, InitialsIn, Numbers;
    Received(c, i, ClientKeys(c, i.header), ClientExpected(w.rw));
    SupportedSendable(i);
  }

  /**
   * So can any Initial of the client under another connection ID, such as the one the server chose, which a client uses
   * from its second flight on (section 7.2 of RFC 9000), and one of another version: it goes out untouched, under its own
   * number, whatever its keys.
   */
  lemma AdoptedIdStrays(c: Crypto, w: World, i: InitialDatagram, keys: Keys)
    requires Lawful(c) && Sendable(i) && w.rw.initialized
    requires i.header.dcid != w.rw.clientDCID || i.header.version != w.rw.version
    ensures Passes(c, w.rw, WireBytes(c, i, keys))
  {
    hide WireBytes, Sendable, Decodes, LocateQUICInitial, ParseInitialPacket, DecryptInitial, PacketIn, ClientStep;
    OwnNumberDecodes(i);
    Received(c, i, keys, i.pn);
    ClientUnopenedPasses(c, w.rw, WireBytes(c, i, keys));
  }

  lemma OwnNumberDecodes(i: InitialDatagram)
    requires Sendable(i)
    ensures Decodes(i.pn, i.pnLen, i.pn)
  {
    hide SkippedPackets;
    PowerValues();
    DecodeExact(i.pn, i.pnLen, i.pn);
  }

  /** Whatever stands behind the first Initial of a datagram passes too: the last datagram sent ends with it, byte for byte. */
  lemma FurtherPass(c: Crypto, w: World, data: bytes, i: InitialDatagram)
    requires Lawful(c) && ClientSends(c, w, data, i)
    ensures var out := ClientStep(c, w.rw, data).datagrams;
      && |out| > 0 && LocateQUICInitial(out[|out| - 1]).Found?
      && LocateQUICInitial(out[|out| - 1]).suffix == i.suffix
  {
    hide *;
    SendsParts(c, w, data, i);
    LastKeepsSuffix(w.rw, i);
    var k := |Emits(w.rw, i)| - 1;
    EmittedDecodes(w.rw, i, k);
    var e := Emits(w.rw, i)[k];
    var padding := NumbersReachTheWire(c, w, data, i, k, e.pn);
    SuffixRead(c, ClientStep(c, w.rw, data).datagrams[k], ClientKeys(c, i.header), e.pn,
               e.(plaintext := e.plaintext + Zeros(padding)));
  }

  lemma SendsParts(c: Crypto, w: World, data: bytes, i: InitialDatagram)
    requires ClientSends(c, w, data, i)
    ensures Sendable(i) && 1 <= i.pnLen <= 4 && i.pn + 1 < MAX_PN && |i.plaintext| <= MAX_PLAINTEXT && i.header.dcid == w.dcid
  {
    hide ClientState, Reads, Recorded, SkippedPackets;
  }

  lemma LastKeepsSuffix(st: RewriterState, i: InitialDatagram)
    requires 1 <= i.pnLen <= 4
    ensures var es := Emits(st, i); |es| > 0 && es[|es| - 1].suffix == i.suffix
  {
    hide SplitInitialCryptoFrames;
  }

  lemma SuffixRead(c: Crypto, data: bytes, keys: Keys, expected: nat, i: InitialDatagram)
    requires Reads(c, data, keys, expected, i)
    ensures LocateQUICInitial(data).Found? && LocateQUICInitial(data).suffix == i.suffix
  {
    hide LocateQUICInitial, ParseInitialPacket, DecryptInitial;
  }

  /** The packet read from this client datagram has no number at the end of the number space, and starts only its own connection. */
  ghost predicate InTime(c: Crypto, w: World, data: bytes) {
    forall i: InitialDatagram :: Reads(c, data, ClientKeys(c, i.header), ClientExpected(w.rw), i) ==>
      && i.pn + 1 < MAX_PN
      && (!w.rw.initialized && SplitInitialCryptoFrames(i.plaintext).Some? ==> i.header.dcid == w.dcid)
  }

  /** Runs leave out no client datagram but these. */
  lemma ClientDatagramsCovered(c: Crypto, w: World, data: bytes) returns (e: Event, w': World)
    requires Lawful(c) && Shifted(w)
    requires |data| <= MAX_PLAINTEXT && ClientExpected(w.rw) < MAX_PN && InTime(c, w, data)
    ensures (e.ClientPassed? || e.ClientInitial?) && e.data == data
    ensures Next(c, w, e, w') && w'.rw == ClientStep(c, w.rw, data).state
  {
    hide LocateQUICInitial, ParseInitialPacket, DecryptInitial, ClientStep, Sendable, Decodes, PacketIn, Emits,
      SplitInitialCryptoFrames, Contain, InitialsIn, Numbers, ClientState;
    if ClientOpens(c, w.rw, data) {
      var keys := ClientKeys(c, ParseInitialPacket(PacketIn(data)).value.header);
      var i := ReadableIsSendable(c, data, keys, ClientExpected(w.rw));
      PayloadWithin(c, data, keys, ClientExpected(w.rw), i);
      e, w' := OpenedIsCovered(c, w, data, i);
    } else {
      ClientUnopenedPasses(c, w.rw, data);
      var more := SomethingContained(c, w.dcid, InitialsIn(data));
      e, w' := ClientPassed(data, more), AfterPassed(w, more);
    }
  }

  lemma OpenedIsCovered(c: Crypto, w: World, data: bytes, i: InitialDatagram) returns (e: Event, w': World)
    requires Lawful(c) && Shifted(w) && ClientReadable(c, w.rw, data, i)
    requires w.rw.initialized || SplitInitialCryptoFrames(i.plaintext).None? || i.header.dcid == w.dcid
    ensures (e.ClientPassed? || e.ClientInitial?) && e.data == data
    ensures Next(c, w, e, w') && w'.rw == ClientStep(c, w.rw, data).state
  {
    ReadableParts(c, w.rw, data, i);
    ClientEmission(c, w.rw, data, i);
    hide ClientStep, Sendable, SplitInitialCryptoFrames, Contain, InitialsIn, Numbers, IsPadded, Reads;
    if w.rw.initialized || SplitInitialCryptoFrames(i.plaintext).Some? {
      var more := SomethingContained(c, w.dcid, InitialsIn(i.suffix));
      e, w' := ClientInitial(data, i, more), AfterInitial(c, w, data, i, more);
    } else {
      UnsplitPasses(c, w.rw, data, i);
      var more := SomethingContained(c, w.dcid, InitialsIn(data));
      e, w' := ClientPassed(data, more), AfterPassed(w, more);
    }
  }

  lemma UnsplitPasses(c: Crypto, st: RewriterState, data: bytes, i: InitialDatagram)
    requires Lawful(c) && ClientReadable(c, st, data, i) && !st.initialized && SplitInitialCryptoFrames(i.plaintext).None?
    ensures Passes(c, st, data)
  {
    ReadableParts(c, st, data, i);
    ClientStepReduces(c, st, data, i);
    hide ClientStep, SplitInitialCryptoFrames, ClientReadable;
  }

  /** So can any server datagram whose first Initial has a number that client and rewriter decode, with anything behind it. */
  lemma ServerCanSend(c: Crypto, w: World, i: InitialDatagram, expected: seq<nat>)
    requires Lawful(c) && Shifted(w) && Sendable(i) && |expected| == 1 + |InitialsIn(i.suffix)|
    requires Decodes(i.pn, i.pnLen, expected[0]) && Decodes(i.pn, i.pnLen, w.rw.serverExpected)
    requires w.rw.serverExpected < MAX_PN
    requires |WireBytes(c, i, c.derive(i.header.version, w.dcid, true))| <= MAX_PLAINTEXT
    ensures var data := WireBytes(c, i, c.derive(i.header.version, w.dcid, true));
      && ServerSends(c, w, data, expected)
      && InitialsIn(data) == [PacketIn(data)] + InitialsIn(i.suffix)
      && ClientReads(c, w.dcid, data, expected)[0] == Some(ContentOf(i))
      && (Opens(c, w.rw, data) <==> w.rw.initialized && i.header.version == w.rw.version)
  {
    hide WireBytes, Decodes, LocateQUICInitial, ParseInitialPacket, DecryptInitial, PacketIn, SkippedPackets, InitialsIn;
    var keys := c.derive(i.header.version, w.dcid, true);
    Received(c, i, keys, expected[0]);
    Received(c, i, keys, w.rw.serverExpected);
    FirstAndRest(c, w.dcid, true, WireBytes(c, i, keys), expected[0], i);
    FirstAndRest(c, w.dcid, true, WireBytes(c, i, keys), w.rw.serverExpected, i);
  }

  /** Runs leave out no server datagram but a Retry: each is read, or passed on unread, until packet numbers run out. */
  lemma ServerDatagramsCovered(c: Crypto, w: World, data: bytes) returns (e: Event)
    requires Lawful(c) && !LocateQUICInitial(data).Retry? && |data| <= MAX_PLAINTEXT && w.rw.serverExpected < MAX_PN
    ensures e == ServerUnread(data) || (e.ServerInitial? && e.data == data)
    ensures Next(c, w, e, w.(rw := ServerStep(c, w.rw, data).state))
  {
    hide LocateQUICInitial, ParseInitialPacket, DecryptInitial, ServerStep, Sendable, Decodes, PacketIn;
    if Opens(c, w.rw, data) {
      var i := ReadableIsSendable(c, data, ServerKeys(c, w.rw), w.rw.serverExpected);
      PayloadWithin(c, data, ServerKeys(c, w.rw), w.rw.serverExpected, i);
      e := ServerInitial(data, i);
    } else {
      e := ServerUnread(data);
    }
  }

  lemma PayloadWithin(c: Crypto, data: bytes, keys: Keys, expected: nat, i: InitialDatagram)
    requires Lawful(c) && Reads(c, data, keys, expected, i)
    ensures |i.plaintext| <= |data|
  {
    var skipped := LocateExact(data);
    DecryptedFits(c, PacketIn(data), keys, expected);
    hide LocateQUICInitial, ParseInitialPacket, DecryptInitial, Decodes;
  }

  // ---- when the size can be met -------------------------------------------

  /** Below packet number 2^30 a rewritten payload always fits; so only the holes of the Length field can stop it. */
  lemma FitsUnlessHole(c: Crypto, st: RewriterState, data: bytes, i: InitialDatagram)
    requires Lawful(c) && ServerReadable(c, st, data, i)
    requires PayloadAcksBelow(i.plaintext, FIT_BOUND)
    ensures var target := TargetSize(|PacketIn(data)|, |data|) - HeaderSize(i.header);
      target != 65 && target != 16386 && target != 16387 && !(0x4000_0004 <= target < 0x4000_0008)
      ==> SizeReachable(st, data, ContentOf(i))
  {
    RewriteFits(i.plaintext, st.firstClientPN);
    ReadSize(c, data, ServerKeys(c, st), st.serverExpected, i);
    hide RewriteAckFrames, HeaderSize, PacketIn, Reads, Sendable, LocateQUICInitial;
    var n := |RewriteAckFrames(i.plaintext, st.firstClientPN).value|;
    VarintLenMonotone(i.pnLen + n + 16, i.pnLen + |i.plaintext| + 16);
    ReachableExactly(i.header, i.pnLen, n, TargetSize(|PacketIn(data)|, |data|));
  }
}
