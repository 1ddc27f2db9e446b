/** Whole runs of client, rewriter and server: what the server acknowledges reaches the client as packets the client sent. */
module Run {
  import opened Bytes
  import opened Varint
  import opened PacketNumber
  import opened Framing
  import opened Acks
  import opened Splitting
  import opened Packet
  import opened Padding
  import opened Datagram
  import opened Rewriter
  import opened RewriterSteps

  /** quicUDPPacketSize, the buffer size of every read. */
  const MAX_PLAINTEXT: nat := 65535

  // ---- acknowledged numbers -----------------------------------------------

  /** Some ACK frame of the payload acknowledges n. */
  ghost predicate AckedBy(plaintext: bytes, n: nat) {
    Frames(plaintext).Some? && FramesAck(Frames(plaintext).value, n)
  }

  ghost predicate FrameAcks(f: bytes, n: nat) {
    Whole(f) && IsAck(f) && Acked(AckOf(f).ranges, n)
  }

  ghost predicate FramesAck(fs: seq<bytes>, n: nat) {
    exists i :: 0 <= i < |fs| && FrameAcks(fs[i], n)
  }

  ghost predicate AckedByImage(plaintext: bytes, first: nat, n: nat) {
    exists m :: AckedBy(plaintext, m) && MapAckPN(m, first) == n
  }

  /** One frame: the rewritten one acknowledges exactly the images. */
  lemma FrameImage(f: bytes, g: bytes, first: nat, n: nat)
    requires Whole(f) && Whole(g) && Rewritten(f, g, first)
    ensures FrameAcks(g, n) <==> exists m :: FrameAcks(f, m) && MapAckPN(m, first) == n
  {
    if IsAck(f) {
      WholeAck(f);
      RemapExact(AckOf(f).ranges, first, n);
      if FrameAcks(g, n) {
        var m :| Acked(AckOf(f).ranges, m) && MapAckPN(m, first) == n;
        assert FrameAcks(f, m);
      }
    }
  }

  /** A rewritten payload acknowledges exactly the client numbers behind the wire numbers the original acknowledges. */
  lemma RewrittenAcks(plaintext: bytes, first: nat, n: nat)
    requires Frames(plaintext).Some?
    ensures RewriteAckFrames(plaintext, first).Some?
    ensures AckedBy(RewriteAckFrames(plaintext, first).value, n) <==> AckedByImage(plaintext, first, n)
  {
    RewriteExact(plaintext, first);
    hide Frames, Whole, Rewritten, RewriteAckFrames, FrameAcks;
    var fs := Frames(plaintext).value;
    var out := RewriteAckFrames(plaintext, first).value;
    var gs := Frames(out).value;
    forall i | 0 <= i < |fs|
      ensures FrameAcks(gs[i], n) <==> exists m :: FrameAcks(fs[i], m) && MapAckPN(m, first) == n
    {
      FrameImage(fs[i], gs[i], first, n);
    }
    if AckedBy(out, n) {
      var i :| 0 <= i < |gs| && FrameAcks(gs[i], n);
      var m :| FrameAcks(fs[i], m) && MapAckPN(m, first) == n;
      assert AckedBy(plaintext, m);
    }
    if AckedByImage(plaintext, first, n) {
      var m :| AckedBy(plaintext, m) && MapAckPN(m, first) == n;
      var i :| 0 <= i < |fs| && FrameAcks(fs[i], m);
      assert FrameAcks(gs[i], n);
    }
  }

  /** Zero padding acknowledges nothing, also where an open-ended last frame swallows it. */
  lemma PaddingAcksNothing(plaintext: bytes, padding: nat, n: nat)
    requires Frames(plaintext).Some?
    ensures AckedBy(plaintext + Zeros(padding), n) <==> AckedBy(plaintext, n)
  {
    var fs := Frames(plaintext).value;
    ConcatOfFrames(plaintext);
    if Closed(fs) {
      ClosedPadding(fs, padding, n);
    } else {
      OpenPadding(fs, padding, n);
    }
  }

  lemma ClosedPadding(fs: seq<bytes>, padding: nat, n: nat)
    requires WellFramed(fs) && Closed(fs)
    ensures AckedBy(Concat(fs) + Zeros(padding), n) <==> AckedBy(Concat(fs), n)
  {
    hide Frames, Whole, FrameAcks;
    PadFramesAreZeros(padding);
    var pads := PadFrames(padding);
    var gs := fs + pads;
    ConcatAppend(fs, pads);
    FramesOfConcat(fs);
    FramesOfConcat(gs);
    assert forall i :: 0 <= i < |fs| ==> gs[i] == fs[i];
    assert forall i :: |fs| <= i < |gs| ==> gs[i] == [0x00];
    NotAnAck([0x00], n);
  }

  lemma OpenPadding(fs: seq<bytes>, padding: nat, n: nat)
    requires WellFramed(fs) && !Closed(fs)
    ensures AckedBy(Concat(fs) + Zeros(padding), n) <==> AckedBy(Concat(fs), n)
  {
    OpenFrameIsLast(fs);
    hide Frames, Whole, OpenEnded, FrameAcks;
    var k := |fs| - 1;
    var zeros := Zeros(padding);
    OpenFrameSwallows(fs[k], zeros);
    var gs := fs[..k] + [fs[k] + zeros];
    assert WellFramed(gs);
    FramesOfConcat(fs);
    FramesOfConcat(gs);
    ConcatAppend(fs[..k], [fs[k]]);
    ConcatAppend(fs[..k], [fs[k] + zeros]);
    ConcatOne(fs[k]);
    ConcatOne(fs[k] + zeros);
    assert fs[..k] + [fs[k]] == fs;
    assert Concat(fs[..k]) + fs[k] + zeros == Concat(fs[..k]) + (fs[k] + zeros);
    OpenIsNoAck(fs[k], n);
    OpenIsNoAck(gs[k], n);
    assert forall i :: 0 <= i < k ==> gs[i] == fs[i];
  }

  lemma NotAnAck(f: bytes, n: nat)
    requires !IsAck(f)
    ensures !FrameAcks(f, n)
  {
  }

  lemma OpenIsNoAck(f: bytes, n: nat)
    requires Whole(f) && OpenEnded(f[0])
    ensures !FrameAcks(f, n)
  {
  }

  // ---- what the client's packets become -----------------------------------

  /** The packets the rewriter sends for a client Initial of the connection it records. */
  ghost function Emits(st: RewriterState, i: InitialDatagram): (es: seq<InitialDatagram>)
    requires 1 <= i.pnLen <= 4
  {
    var split := SplitInitialCryptoFrames(i.plaintext);
    if (!st.initialized || i.pn == st.firstClientPN) && split.Some? then
      [i.(plaintext := split.value.first, suffix := []),
       i.(plaintext := split.value.second, pn := i.pn + 1, pnLen := SecondPNLen(i.pn, i.pnLen), skipped := [])]
    else if !st.initialized || i.pn <= st.firstClientPN then [i]
    else [i.(pn := i.pn + 1, pnLen := SecondPNLen(i.pn, i.pnLen))]
  }

  ghost function ClientKeys(c: Crypto, h: Header): (k: Keys) {
    c.derive(h.version, h.dcid, false)
  }

  ghost predicate Recorded(st: RewriterState, h: Header) {
    st.initialized ==> h.version == st.version && h.dcid == st.clientDCID
  }

  /** A client datagram with an Initial of the recorded connection that the rewriter reads as i. */
  ghost predicate ClientReadable(c: Crypto, st: RewriterState, data: bytes, i: InitialDatagram) {
    && Reads(c, data, ClientKeys(c, i.header), ClientExpected(st), i)
    && Sendable(i) && |i.plaintext| <= MAX_PLAINTEXT && i.pn + 1 < MAX_PN
    && Recorded(st, i.header)
  }

  /** The rewriter opens the Initial of this client datagram, and it is of the recorded connection. */
  ghost predicate ClientOpens(c: Crypto, st: RewriterState, data: bytes) {
    && LocateQUICInitial(data).Found?
    && ParseInitialPacket(PacketIn(data)).Some?
    && var h := ParseInitialPacket(PacketIn(data)).value.header;
    && SupportedVersion(h.version) && Recorded(st, h)
    && DecryptInitial(c, PacketIn(data), ClientKeys(c, h), ClientExpected(st)).Some?
  }

  /** Every other client datagram is passed on as it is, and nothing is noted. */
  lemma ClientUnopenedPasses(c: Crypto, st: RewriterState, data: bytes)
    requires !ClientOpens(c, st, data)
    ensures ClientStep(c, st, data) == ClientResult(st, [data])
  {
    hide LocateQUICInitial, ParseInitialPacket, DecryptInitial, SupportedVersion, FragmentClientInitial, EncryptPaddedInitial;
  }

  /** The rewriter's state after a client Initial. */
  ghost function ClientState(st: RewriterState, i: InitialDatagram): (st': RewriterState)
  {
    if !st.initialized then
      if SplitInitialCryptoFrames(i.plaintext).Some?
      then RewriterState(true, i.header.version, i.header.dcid, i.pn, i.pn + 1, 0) else st
    else if i.pn > st.firstClientPN && i.pn >= st.clientExpected then st.(clientExpected := i.pn + 1)
    else st
  }

  lemma {:induction false} OthersFit(fs: seq<bytes>)
    requires forall i :: 0 <= i < |fs| ==> Whole(fs[i])
    ensures |Concat(OtherFrames(fs))| <= |Concat(fs)|
  {
    hide Whole;
    if fs != [] {
      OthersFit(fs[1..]);
      FirstByte(fs[0]);
      var os := OtherFrames(fs[1..]);
      assert ([fs[0]] + os)[1..] == os;
      assert [] + os == os;
    }
  }

  lemma FragmentSizes(plaintext: bytes)
    requires SplitInitialCryptoFrames(plaintext).Some?
    ensures var f := SplitInitialCryptoFrames(plaintext).value;
      4 <= |f.first| <= 2 * |plaintext| + 17 && 4 <= |f.second| <= |plaintext| + 17
  {
    hide SplitInitialCryptoFrames, OtherFrames, WriteVarint;
    var fs, stream, k := SplitParts(plaintext);
    OthersFit(fs);
    ConcatOfFrames(plaintext);
  }

  /** The datagram sent for packet e: re-encrypted with padding, or the client's own one where the packet is not changed. */
  ghost predicate Sends(c: Crypto, out: bytes, e: InitialDatagram, keys: Keys, data: bytes, i: InitialDatagram)
    requires Lawful(c)
  {
    IsPadded(c, out, e, keys) || (out == data && e == i)
  }

  /** The client's side: the rewriter sends exactly those packets and moves to that state. No fallback fires. */
  lemma ClientEmission(c: Crypto, st: RewriterState, data: bytes, i: InitialDatagram)
    requires Lawful(c) && ClientReadable(c, st, data, i)
    ensures var keys := ClientKeys(c, i.header);
      var r := ClientStep(c, st, data);
      var es := Emits(st, i);
      && r.state == ClientState(st, i)
      && |r.datagrams| == |es|
      && forall k :: 0 <= k < |es| ==> Sends(c, r.datagrams[k], es[k], keys, data, i)
  {
    var keys := ClientKeys(c, i.header);
    var d := Decrypted(i.plaintext, i.pn, i.pnLen);
    hide ClientStep, SplitInitialCryptoFrames, PaddedWith, IsPadded, Recorded,
      EncryptPaddedInitial, FragmentClientInitial, Sendable, ClientReadable;
    ReadableParts(c, st, data, i);
    ClientStepReduces(c, st, data, i);
    FragmentExactly(c, Concat(i.skipped), i.suffix, i.header, d, keys);
    if (!st.initialized || i.pn == st.firstClientPN) && SplitInitialCryptoFrames(i.plaintext).Some? {
      FragmentEmission(c, i, keys);
    } else if st.initialized && i.pn > st.firstClientPN {
      ShiftEmission(c, i, keys);
    }
  }

  lemma ReadableParts(c: Crypto, st: RewriterState, data: bytes, i: InitialDatagram)
    requires ClientReadable(c, st, data, i)
    ensures Sendable(i) && |i.plaintext| <= MAX_PLAINTEXT && i.pn + 1 < MAX_PN && 1 <= i.pnLen <= 4
    ensures st.initialized ==> i.header.version == st.version && i.header.dcid == st.clientDCID
  {
  }

  /** The step comes down to the case analysis on the packet read. */
  lemma ClientStepReduces(c: Crypto, st: RewriterState, data: bytes, i: InitialDatagram)
    requires ClientReadable(c, st, data, i)
    ensures 1 <= i.pnLen <= 4
    ensures ClientStep(c, st, data)
         == ClientPacketStep(c, st, data, Concat(i.skipped), i.suffix, i.header,
                             Decrypted(i.plaintext, i.pn, i.pnLen), ClientKeys(c, i.header))
  {
    hide LocateQUICInitial, ParseInitialPacket, DecryptInitial, ClientPacketStep, Sendable;
    SupportedSendable(i);
  }

  lemma SupportedSendable(i: InitialDatagram)
    requires Sendable(i)
    ensures SupportedVersion(i.header.version) && 1 <= i.pnLen <= 4 && i.pnLen + |i.plaintext| >= 4
  {
  }

  lemma ShiftEmission(c: Crypto, i: InitialDatagram, keys: Keys)
    requires Lawful(c) && Sendable(i) && |i.plaintext| <= MAX_PLAINTEXT && i.pn + 1 < MAX_PN
    ensures var j := i.(pn := i.pn + 1, pnLen := SecondPNLen(i.pn, i.pnLen));
      var r := EncryptPaddedInitial(c, j.header, j.pn, j.pnLen, j.plaintext, keys, |Concat(i.skipped)| + |i.suffix|);
      r.Some? && IsPadded(c, Concat(i.skipped) + r.value + i.suffix, j, keys)
  {
    hide EncryptPaddedInitial, PaddedWith, EncryptInitial, SkippedPackets, Concat;
    var j := i.(pn := i.pn + 1, pnLen := SecondPNLen(i.pn, i.pnLen));
    var other := |Concat(i.skipped)| + |i.suffix|;
    PaddedInitialFits(c, j.header, j.pn, j.pnLen, j.plaintext, keys, other);
    var packet := EncryptPaddedInitial(c, j.header, j.pn, j.pnLen, j.plaintext, keys, other).value;
    var padding := PaddedPacket(c, j, keys, other);
    PaddedIsWire(c, j, keys, padding, packet);
  }

  /**
   * The shift keeps numbers readable: a receiver that would decode the client's number and has seen one number more
   * decodes the shifted one.
   */
  lemma ShiftKeepsDecoding(n: nat, pnLen: nat, expected: nat)
    requires 1 <= pnLen <= 4 && InWindow(n, pnLen, expected)
    ensures InWindow(n + 1, SecondPNLen(n, pnLen), expected + 1)
    ensures n + 1 < MAX_PN && expected < MAX_PN ==> Decodes(n + 1, SecondPNLen(n, pnLen), expected + 1)
  {
    PowerValues();
    if n + 1 < MAX_PN && expected < MAX_PN {
      DecodeExact(n + 1, SecondPNLen(n, pnLen), expected + 1);
    }
  }

  /**
   * The shifted number fits the length it is sent with, up to the four bytes there are; and that length is the client's own
   * unless it had become too short.
   */
  lemma SecondLengthFits(n: nat, pnLen: nat)
    requires 1 <= pnLen <= 4
    ensures n + 1 < 0x1_0000_0000 ==> n + 1 < Pow256(SecondPNLen(n, pnLen))
    ensures n + 1 < Pow256(pnLen) ==> SecondPNLen(n, pnLen) == pnLen
    ensures n + 1 >= Pow256(pnLen) && pnLen < 4 ==> SecondPNLen(n, pnLen) > pnLen && n + 1 >= Pow256(SecondPNLen(n, pnLen) - 1)
  {
    PowerValues();
    PacketNumberLenShortest(n + 1, pnLen);
    PacketNumberLenShortest(n + 1, SecondPNLen(n, pnLen));
  }

  lemma FragmentEmission(c: Crypto, i: InitialDatagram, keys: Keys)
    requires Lawful(c) && Sendable(i) && |i.plaintext| <= MAX_PLAINTEXT && i.pn + 1 < MAX_PN
    requires SplitInitialCryptoFrames(i.plaintext).Some?
    ensures var d := Decrypted(i.plaintext, i.pn, i.pnLen);
      var r := FragmentClientInitial(c, Concat(i.skipped), i.suffix, i.header, d, keys);
      var f := SplitInitialCryptoFrames(i.plaintext).value;
      var one := i.(plaintext := f.first, suffix := []);
      var two := i.(plaintext := f.second, pn := i.pn + 1, pnLen := SecondPNLen(i.pn, i.pnLen), skipped := []);
      r.Some? && |r.value| == 2 && IsPadded(c, r.value[0], one, keys) && IsPadded(c, r.value[1], two, keys)
  {
    hide EncryptPaddedInitial, PaddedWith, EncryptInitial, SkippedPackets, SplitInitialCryptoFrames, PacketSize;
    var f := SplitInitialCryptoFrames(i.plaintext).value;
    FragmentSizes(i.plaintext);
    var one := i.(plaintext := f.first, suffix := []);
    var two := i.(plaintext := f.second, pn := i.pn + 1, pnLen := SecondPNLen(i.pn, i.pnLen), skipped := []);
    assert SkippedPackets([]) by {
      NoneSkipped();
    }
    var pre := Concat(i.skipped);
    PaddedInitialFits(c, one.header, one.pn, one.pnLen, one.plaintext, keys, |pre|);
    PaddedInitialFits(c, two.header, two.pn, two.pnLen, two.plaintext, keys, |i.suffix|);
    var p1 := EncryptPaddedInitial(c, one.header, one.pn, one.pnLen, one.plaintext, keys, |pre|).value;
    var p2 := EncryptPaddedInitial(c, two.header, two.pn, two.pnLen, two.plaintext, keys, |i.suffix|).value;
    var z1 := PaddedPacket(c, one, keys, |pre|);
    var z2 := PaddedPacket(c, two, keys, |i.suffix|);
    PaddedIsWire(c, one, keys, z1, p1);
    PaddedIsWire(c, two, keys, z2, p2);
    assert pre + p1 + [] == pre + p1;
    assert [] + p2 + i.suffix == p2 + i.suffix;
  }

  lemma NoneSkipped()
    ensures SkippedPackets([]) && Concat([]) == []
  {
  }

  // ---- the server's packets -----------------------------------------------

  /** The rewriter has started and opens the Initial of this server datagram: the recorded version, and it decrypts. */
  ghost predicate Opens(c: Crypto, st: RewriterState, data: bytes) {
    && st.initialized && LocateQUICInitial(data).Found?
    && ParseInitialPacket(PacketIn(data)).Some?
    && ParseInitialPacket(PacketIn(data)).value.header.version == st.version && SupportedVersion(st.version)
    && DecryptInitial(c, PacketIn(data), ServerKeys(c, st), st.serverExpected).Some?
  }

  /** Every other server datagram that is no Retry is passed on as it is, and nothing is noted. */
  lemma UnopenedPasses(c: Crypto, st: RewriterState, data: bytes)
    requires !LocateQUICInitial(data).Retry? && !Opens(c, st, data)
    ensures ServerStep(c, st, data) == ServerResult(st, data)
  {
    hide LocateQUICInitial, ParseInitialPacket, DecryptInitial, ServerPacketStep;
  }

  /** A server datagram whose Initial the rewriter opens and reads as i. */
  ghost predicate ServerReadable(c: Crypto, st: RewriterState, data: bytes, i: InitialDatagram) {
    && Sendable(i) && |i.plaintext| <= MAX_PLAINTEXT
    && st.initialized && i.header.version == st.version
    && Reads(c, data, ServerKeys(c, st), st.serverExpected, i)
  }

  /** Server packets are protected with keys derived from the client's connection ID. */
  ghost function ServerKeys(c: Crypto, st: RewriterState): (k: Keys) {
    c.derive(st.version, st.clientDCID, true)
  }

  /** The payload changes under the shift and can be given the size it must have. */
  ghost predicate ServerRewrites(st: RewriterState, data: bytes, i: InitialDatagram) {
    var rewritten := RewriteAckFrames(i.plaintext, st.firstClientPN);
    && rewritten.Some? && rewritten.value != i.plaintext
    && Reachable(i.header, i.pnLen, |rewritten.value|, TargetSize(|PacketIn(data)|, |data|))
  }

  ghost function ServerState(st: RewriterState, i: InitialDatagram): (st': RewriterState)
  {
    if Frames(i.plaintext).Some? && i.pn >= st.serverExpected then st.(serverExpected := i.pn + 1) else st
  }

  /** out is the datagram with its packet replaced: this plaintext, this much padding, and the required length. */
  ghost predicate ResizedTo(c: Crypto, data: bytes, i: InitialDatagram, keys: Keys, plaintext: bytes, padding: nat, out: bytes)
    requires Lawful(c)
  {
    var j := i.(plaintext := plaintext + Zeros(padding));
    && Sendable(j) && out == WireBytes(c, j, keys)
    && |out| == if |data| < MIN_DATAGRAM then MIN_DATAGRAM else |data|
  }

  /**
   * What a server Initial becomes: the rewritten payload, padded to the required size, exactly if the payload changes
   * and that size can be reached; its own datagram otherwise.
   */
  lemma ServerEmission(c: Crypto, st: RewriterState, data: bytes, i: InitialDatagram) returns (padding: nat)
    requires Lawful(c) && ServerReadable(c, st, data, i) && |data| <= MAX_PLAINTEXT
    ensures var r := ServerStep(c, st, data);
      && r.state == ServerState(st, i)
      && if ServerRewrites(st, data, i)
         then ResizedTo(c, data, i, ServerKeys(c, st), RewriteAckFrames(i.plaintext, st.firstClientPN).value, padding, r.datagram)
         else r.datagram == data
  {
    hide ServerStep, RewriteAckFrames, Frames, Sendable, ResizedTo, TargetSize, EncryptInitialToPacketSize, Reachable,
      ServerReadable, PacketIn, Reads;
    ServerStepReduces(c, st, data, i);
    RewriteIsFramewise(i.plaintext, st.firstClientPN);
    padding := 0;
    if Frames(i.plaintext).Some? {
      var rewritten := RewriteAckFrames(i.plaintext, st.firstClientPN).value;
      if rewritten != i.plaintext {
        ChangedIsLong(i.plaintext, st.firstClientPN);
        padding := Resized(c, st, data, i, rewritten);
      }
    }
  }

  lemma ServerStepReduces(c: Crypto, st: RewriterState, data: bytes, i: InitialDatagram)
    requires ServerReadable(c, st, data, i)
    ensures 1 <= i.pnLen <= 4
    ensures ParseInitialPacket(PacketIn(data)).Some?
    ensures ParseInitialPacket(PacketIn(data)).value.packetLen == |PacketIn(data)|
    ensures ParseInitialPacket(PacketIn(data)).value.header == i.header
    ensures ServerStep(c, st, data)
         == ServerPacketStep(c, st, data, Concat(i.skipped), i.suffix, ParseInitialPacket(PacketIn(data)).value,
                             Decrypted(i.plaintext, i.pn, i.pnLen), ServerKeys(c, st))
  {
    hide LocateQUICInitial, ParseInitialPacket, DecryptInitial, ServerPacketStep, Sendable;
    SupportedSendable(i);
  }

  lemma Resized(c: Crypto, st: RewriterState, data: bytes, i: InitialDatagram, rewritten: bytes) returns (padding: nat)
    requires Lawful(c) && ServerReadable(c, st, data, i) && |data| <= MAX_PLAINTEXT
    requires 4 <= |rewritten|
    ensures 1 <= i.pnLen <= 4
    ensures var target := TargetSize(|PacketIn(data)|, |data|);
      var keys := ServerKeys(c, st);
      var r := EncryptInitialToPacketSize(c, i.header, i.pn, i.pnLen, rewritten, keys, target);
      && (Reachable(i.header, i.pnLen, |rewritten|, target) <==> r.Some?)
      && (r.Some? ==> ResizedTo(c, data, i, keys, rewritten, padding, Concat(i.skipped) + r.value + i.suffix))
  {
    hide EncryptInitial, EncryptInitialToPacketSize, SkippedPackets, Concat, Reachable, LocateQUICInitial, ParseInitialPacket,
      DecryptInitial;
    var target := TargetSize(|PacketIn(data)|, |data|);
    var keys := ServerKeys(c, st);
    var r := EncryptInitialToPacketSize(c, i.header, i.pn, i.pnLen, rewritten, keys, target);
    ToPacketSizeExact(c, i.header, i.pn, i.pnLen, rewritten, keys, target);
    var ps := LocateExact(data);
    assert |data| == |Concat(i.skipped)| + |PacketIn(data)| + |i.suffix|;
    padding := 0;
    if r.Some? {
      var p: nat :| r == EncryptWithPadding(c, i.header, i.pn, i.pnLen, rewritten, keys, p);
      padding := p;
      EncryptedSize(c, i.header, i.pn, i.pnLen, rewritten + Zeros(p), keys);
    }
  }

  lemma {:induction false} ConcatAtLeast(fs: seq<bytes>, k: nat)
    requires k < |fs|
    ensures |Concat(fs)| >= |fs[k]|
  {
    if k > 0 {
      ConcatAtLeast(fs[1..], k - 1);
    }
  }

  lemma AckIsLong(f: bytes)
    requires Whole(f) && IsAck(f)
    ensures |f| >= 5
  {
    hide VarintAt, VarintsAt, ParseRanges;
  }

  /** A payload that rewriting changes holds an ACK frame, so what is left is long enough to be encrypted. */
  lemma ChangedIsLong(plaintext: bytes, first: nat)
    requires Frames(plaintext).Some?
    requires RewriteAckFrames(plaintext, first).Some? && RewriteAckFrames(plaintext, first).value != plaintext
    ensures |RewriteAckFrames(plaintext, first).value| >= 4
  {
    RewriteExact(plaintext, first);
    ConcatOfFrames(plaintext);
    hide Frames, Whole, RewriteAckFrames, Concat;
    var fs := Frames(plaintext).value;
    var out := RewriteAckFrames(plaintext, first).value;
    var gs := Frames(out).value;
    ConcatOfFrames(out);
    assert gs != fs;
    var k :| 0 <= k < |fs| && gs[k] != fs[k];
    assert Rewritten(fs[k], gs[k], first);
    AckIsLong(gs[k]);
    ConcatAtLeast(gs, k);
  }
}
