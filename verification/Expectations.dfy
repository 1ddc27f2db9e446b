/** The numbers the rewriter expects next, over whole runs: one more than the largest that was read. */
module Expectations {
  import opened Bytes
  import opened PacketNumber
  import opened Framing
  import opened Packet
  import opened Datagram
  import opened Rewriter
  import opened RewriterSteps
  import opened Run
  import opened Coalesced
  import opened AckSafety

  /** One more than the largest of the numbers, or 0 where there is none. */
  ghost predicate JustAbove(expected: nat, ns: set<nat>) {
    && (forall n :: n in ns ==> n < expected)
    && (expected > 0 ==> expected - 1 in ns)
  }

  /** The numbers of the server's packets that were read among the first k events, of payloads that are whole frames. */
  ghost function ServerRead(es: seq<Event>, k: nat): (ns: set<nat>)
    requires k <= |es|
  {
    if k == 0 then {}
    else
      match es[k - 1]
      case ServerInitial(_, i) => ServerRead(es, k - 1) + (if Frames(i.plaintext).Some? then {i.pn} else {})
      case _ => ServerRead(es, k - 1)
  }

  lemma ClientStays(w: World, i: InitialDatagram, rw': RewriterState)
    requires Invariant(w) && rw' == ClientState(w.rw, i) && rw'.initialized && i.pn + 1 < MAX_PN
    requires w.rw.initialized ==> JustAbove(w.rw.clientExpected, w.read)
    ensures JustAbove(rw'.clientExpected, w.read + {i.pn})
    ensures rw'.serverExpected == if w.rw.initialized then w.rw.serverExpected else 0
  {
    hide Numbered;
  }

  lemma ServerStays(st: RewriterState, i: InitialDatagram, ns: set<nat>)
    requires JustAbove(st.serverExpected, ns)
    ensures JustAbove(ServerState(st, i).serverExpected, ns + if Frames(i.plaintext).Some? then {i.pn} else {})
    ensures ServerState(st, i).clientExpected == st.clientExpected && ServerState(st, i).initialized == st.initialized
  {
    hide Frames;
  }

  lemma NothingRead()
    ensures JustAbove(0, {})
  {
  }

  lemma ServerNeedsStart(c: Crypto, st: RewriterState, data: bytes, i: InitialDatagram)
    requires ServerReadable(c, st, data, i)
    ensures st.initialized
  {
  }

  /** Where the expectations of a world stand. */
  ghost predicate Expects(w: World, server: set<nat>) {
    && (w.rw.initialized ==> JustAbove(w.rw.clientExpected, w.read))
    && JustAbove(w.rw.serverExpected, server)
    && (!w.rw.initialized ==> server == {})
  }

  lemma ClientMoves(c: Crypto, w: World, data: bytes, i: InitialDatagram, more: seq<Content>, server: set<nat>)
    requires Lawful(c) && Invariant(w) && ClientSends(c, w, data, i) && Expects(w, server)
    ensures 1 <= i.pnLen <= 4 && Expects(AfterInitial(c, w, data, i, more), server)
  {
    hide Invariant, ClientStep, ClientState, ClientReadable, JustAbove, Lawful;
    NothingRead();
    ClientEmission(c, w.rw, data, i);
    ReadableParts(c, w.rw, data, i);
    ClientStays(w, i, ClientState(w.rw, i));
  }

  lemma ServerMoves(c: Crypto, w: World, data: bytes, i: InitialDatagram, server: set<nat>)
    requires Lawful(c) && ServerReadable(c, w.rw, data, i) && |data| <= MAX_PLAINTEXT && Expects(w, server)
    ensures Expects(w.(rw := ServerStep(c, w.rw, data).state), server + if Frames(i.plaintext).Some? then {i.pn} else {})
  {
    hide ServerStep, ServerState, ServerReadable, JustAbove, Lawful, Frames;
    var padding := ServerEmission(c, w.rw, data, i);
    ServerNeedsStart(c, w.rw, data, i);
    ServerStays(w.rw, i, server);
  }

  /**
   * Once the rewriting has started the next number expected of the client is one more than the largest that was read since,
   * whatever the order, and the next one expected of the server one more than the largest read from it.
   */
  lemma {:induction false} ExpectsTheNext(c: Crypto, ws: seq<World>, es: seq<Event>, k: nat)
    requires Lawful(c) && IsRun(c, ws, es) && k <= |es|
    ensures ws[k].rw.initialized ==> JustAbove(ws[k].rw.clientExpected, ws[k].read)
    ensures JustAbove(ws[k].rw.serverExpected, ServerRead(es, k))
    ensures !ws[k].rw.initialized ==> ServerRead(es, k) == {}
  {
    hide Invariant, ClientStep, ServerStep, LocateQUICInitial, ClientSends, ServerReadable, Opens, JustAbove, Passes, AfterInitial,
      Contain, Frames;
    NothingRead();
    if k > 0 {
      ExpectsTheNext(c, ws, es, k - 1);
      RunKeepsInvariant(c, ws, es, k - 1);
      var w, e, server := ws[k - 1], es[k - 1], ServerRead(es, k - 1);
      assert Next(c, w, e, ws[k]);
      match e
      case ClientInitial(data, i, more) => ClientMoves(c, w, data, i, more, server);
      case ClientPassed(_, more) =>
      case ServerInitial(data, i) => ServerMoves(c, w, data, i, server);
      case ServerUnread(data) => UnopenedPasses(c, w.rw, data);
    }
  }
}
