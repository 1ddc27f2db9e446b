/** A flow whose ClientHello arrives in pieces, in every interleaving: it waits until the last piece, and is then promoted. */
module FlightRuns {
  import opened Bytes
  import opened Reassembly
  import opened HelloShape
  import opened Packet
  import opened RewriterSteps
  import opened Collector
  import opened Arrivals
  import opened Pending
  import opened SessionManager
  import opened SessionRuns
  import opened HelloArrives

  // ---- one datagram for the entry -----------------------------------------

  ghost predicate AllSendable(xs: seq<InitialDatagram>) {
    forall k :: 0 <= k < |xs| ==> Sendable(xs[k])
  }

  /** What an entry holds of a flight, packet by packet. */
  ghost function FlightPackets(c: Crypto, xs: seq<InitialDatagram>): (ps: seq<PendingPacket>)
    requires Lawful(c) && AllSendable(xs)
    ensures |ps| == |xs|
  {
    seq(|xs|, k requires 0 <= k < |xs| => PendingPacket(xs[k].pn, Wire(c, xs[k])))
  }

  /** In time, and with this datagram within 256 KiB. */
  ghost predicate Timely(c: Crypto, xs: seq<InitialDatagram>, i: InitialDatagram, last: int, now: int)
    requires Lawful(c) && AllSendable(xs + [i])
  {
    (xs == [] || now <= last + 5_000_000_000) && TotalSize(Wires(c, xs + [i])) <= 262144
  }

  lemma FlightParts(xs: seq<InitialDatagram>, version: nat, dcid: bytes, bound: nat)
    requires OneFlight(xs, version, dcid, bound)
    ensures AllSendable(xs)
  {
    hide Sendable;
  }

  /**
   * The next datagram of the flight: while a byte of the ClientHello is missing the entry waits and holds it too; with the
   * last byte it is promoted, and everything is flushed in the order of the client's numbers, or given up without outbound.
   */
  lemma FlightContinues(c: Crypto, m: ManagerState, key: Key, xs: seq<InitialDatagram>, i: InitialDatagram, version: nat, dcid: bytes,
                        bound: nat, last: int, h: Hello, name: bytes, now: int, target: Target)
    requires Lawful(c) && Bounded(m) && Sane(m) && key in m.pending
    requires OneFlight(xs + [i], version, dcid, bound) && OneFlight(xs, version, dcid, bound)
    requires HoldsFlight(c, m.pending[key].state, xs, version, dcid, bound, last) && Named(h, name) && Carry(xs + [i], h)
    requires Sendable(i) && AllSendable(xs + [i]) && Timely(c, xs, i, last, now)
    ensures var entry := m.pending[key].id;
      var r := Continue(c, m, key, entry, Wire(c, i), now, target);
      && (!WholeHello(xs + [i], h) ==>
            && r.verdict.Wait? && key in r.m.pending && r.m.pending[key].id == entry
            && HoldsFlight(c, r.m.pending[key].state, xs + [i], version, dcid, bound, now))
      && (WholeHello(xs + [i], h) && target.Outbound? ==>
            && r.verdict.Promoted? && Flushed(FlightPackets(c, xs + [i]), r.verdict.datagrams)
            && key !in r.m.pending && key in r.m.sessions && r.m.sessions[key] == r.verdict.session)
      && (WholeHello(xs + [i], h) && target.Nowhere? ==> r.verdict.GivenUp? && key !in r.m.pending)
  {
    var entry, st, data := m.pending[key].id, m.pending[key].state, Wire(c, i);
    hide Bounded, Sane, HoldsFlight, Carry, WholeHello, Joined, Flushed, Continue, AddDatagram, Wire, Lawful, OneFlight, Sendable,
      Named, OthersUntouched;
    NextIsHeard(c, st, xs, i, version, dcid, bound, last, h, name);
    NameIsSome(h, name);
    NotSpoilt(c, st, xs, i, version, dcid, bound, last, now);
    PacketsSoFar(c, st, xs, i, version, dcid, bound, last);
    ContinueVerdict(c, m, key, entry, data, now, target);
    var r := Continue(c, m, key, entry, data, now, target);
    if !WholeHello(xs + [i], h) {
      JoinedHolds(c, st, xs, i, version, dcid, bound, last, h, name, now, r.m.pending[key].state);
    }
  }

  lemma NameIsSome(h: Hello, name: bytes)
    requires Named(h, name)
    ensures name != []
  {
  }

  lemma NotSpoilt(c: Crypto, st: PendingState, xs: seq<InitialDatagram>, i: InitialDatagram, version: nat, dcid: bytes, bound: nat,
                  last: int, now: int)
    requires Lawful(c) && OneFlight(xs, version, dcid, bound) && HoldsFlight(c, st, xs, version, dcid, bound, last)
    requires AllSendable(xs + [i]) && Timely(c, xs, i, last, now) && Sendable(i)
    requires HeardIn(c, st, Wire(c, i)).Some?
    ensures !Spoilt(c, st, Wire(c, i), now)
  {
    FlightParts(xs, version, dcid, bound);
    hide Lawful, Sendable, Wire, AddDatagram, MergeAll, OneFlight, HeardIn;
    FlightSize(c, st, xs, i);
  }

  lemma FlightSize(c: Crypto, st: PendingState, xs: seq<InitialDatagram>, i: InitialDatagram)
    requires Lawful(c) && Sendable(i) && AllSendable(xs + [i])
    requires AllSendable(xs)
    requires |st.packets| == |xs| && forall k :: 0 <= k < |xs| ==> st.packets[k] == PendingPacket(xs[k].pn, Wire(c, xs[k]))
    ensures TotalSize(Payloads(st.packets)) + |Wire(c, i)| == TotalSize(Wires(c, xs + [i]))
  {
    hide Lawful, Sendable, Wire, TotalSize;
    assert Wires(c, xs + [i]) == Payloads(st.packets) + [Wire(c, i)];
    TotalSizeAppend(Payloads(st.packets), [Wire(c, i)]);
    SizeOfOne(Wire(c, i));
  }

  lemma SizeOfOne(d: bytes)
    ensures TotalSize([d]) == |d|
  {
    assert [d][1..] == [];
  }

  lemma PacketsSoFar(c: Crypto, st: PendingState, xs: seq<InitialDatagram>, i: InitialDatagram, version: nat, dcid: bytes, bound: nat,
                     last: int)
    requires Lawful(c) && OneFlight(xs, version, dcid, bound) && HoldsFlight(c, st, xs, version, dcid, bound, last)
    requires Sendable(i) && AllSendable(xs + [i])
    ensures FlightPackets(c, xs + [i]) == st.packets + [PendingPacket(i.pn, Wire(c, i))]
  {
    hide Lawful, Sendable, Wire, MergeAll, OneFlight;
  }

  // ---- the other events ---------------------------------------------------

  /** A datagram goes on to this entry. */
  ghost predicate ForEntry(e: Event, key: Key, entry: nat) {
    e.ContinueEvent? && e.key == key && e.entry == entry
  }

  /** Nothing else that happens touches a waiting entry. */
  lemma OthersLeaveEntry(c: Crypto, w: World, e: Event, key: Key, entry: nat)
    requires SessionRuns.Invariant(w) && Enabled(w, e) && key in w.m.pending && w.m.pending[key].id == entry
    requires !ForEntry(e, key, entry)
    ensures var m' := SessionRuns.After(c, w, e).m; key in m'.pending && m'.pending[key] == w.m.pending[key]
  {
    hide Bounded, Registered, Dispatch, Continue, Spoilt, Joined, Flushed, Sane, HeardIn;
    match e
    case DispatchEvent(k, data, target, initial) =>
      DispatchVerdict(w.m, k, data, target, initial);
      PendingNotListed(w.m, key);
      assert k != key ==> SameAt(w.m, Dispatch(w.m, k, data, target, initial).m, key);
    case ContinueEvent(k, en, data, now, target) =>
      ContinueVerdict(c, w.m, k, en, data, now, target);
      assert k != key ==> SameAt(w.m, Continue(c, w.m, k, en, data, now, target).m, key);
    case CloseEvent(s) =>
    case UnlistEvent(s) =>
      UnlistVerdict(w.m, s);
  }

  lemma PendingNotListed(m: ManagerState, key: Key)
    requires Bounded(m) && key in m.pending
    ensures key !in m.sessions
  {
  }

  // ---- the run ------------------------------------------------------------

  /** The datagrams that went on to this entry between two points, each with its time. */
  ghost function Fed(es: seq<Event>, key: Key, entry: nat, from: nat, until: nat): (fed: seq<(bytes, int)>)
    requires from <= until <= |es|
  {
    if until == from then []
    else Fed(es, key, entry, from, until - 1)
         + (if ForEntry(es[until - 1], key, entry) then [(es[until - 1].data, es[until - 1].now)] else [])
  }

  lemma {:induction false} FedIsPrefix(es: seq<Event>, key: Key, entry: nat, from: nat, k: nat, until: nat)
    requires from <= k <= until <= |es|
    ensures Fed(es, key, entry, from, k) <= Fed(es, key, entry, from, until)
    decreases until
  {
    hide ForEntry;
    if k < until {
      FedIsPrefix(es, key, entry, from, k, until - 1);
    }
  }

  ghost function Times(c: Crypto, xs: seq<InitialDatagram>, nows: seq<int>): (fed: seq<(bytes, int)>)
    requires Lawful(c) && AllSendable(xs) && |nows| == |xs|
    ensures |fed| == |xs|
  {
    seq(|xs|, k requires 0 <= k < |xs| => (Wire(c, xs[k]), nows[k]))
  }

  /** The flight that is fed: of one connection, carrying the ClientHello, complete with its last datagram and not before. */
  ghost predicate Flight(c: Crypto, xs: seq<InitialDatagram>, nows: seq<int>, version: nat, dcid: bytes, bound: nat, h: Hello, name: bytes)
    requires Lawful(c)
  {
    && xs != [] && |nows| == |xs| && OneFlight(xs, version, dcid, bound)
    && AllSendable(xs)
    && Named(h, name) && Carry(xs, h) && WholeHello(xs, h) && !AlmostWhole(xs, h)
    && (forall j :: 0 < j < |nows| ==> nows[j] <= nows[j - 1] + 5_000_000_000)
    && TotalSize(Wires(c, xs)) <= 262144
  }

  /** All but the last datagram carry the whole ClientHello. */
  ghost predicate AlmostWhole(xs: seq<InitialDatagram>, h: Hello)
    requires xs != [] && Carry(xs, h)
  {
    Acceptable(Plaintexts(xs[..|xs| - 1])) ==> Covered(AllSegments(Plaintexts(xs[..|xs| - 1])), PrintHello(h))
  }

  lemma {:induction false} SegmentsOfPrefix(ps: seq<bytes>, n: nat)
    requires Acceptable(ps) && n <= |ps|
    ensures Acceptable(ps[..n])
    ensures forall s :: s in AllSegments(ps[..n]) ==> s in AllSegments(ps)
    decreases |ps|
  {
    hide PlainSegments;
    if n > 0 {
      assert ps[..n][0] == ps[0] && ps[..n][1..] == ps[1..][..n - 1];
      SegmentsOfPrefix(ps[1..], n - 1);
    }
  }

  lemma PlaintextsPrefix(xs: seq<InitialDatagram>, n: nat)
    requires n <= |xs|
    ensures Plaintexts(xs[..n]) == Plaintexts(xs)[..n]
  {
  }

  /** Part of the flight carries part of the ClientHello. */
  lemma CarryPrefix(xs: seq<InitialDatagram>, h: Hello, n: nat)
    requires Carry(xs, h) && n <= |xs|
    ensures Carry(xs[..n], h)
    ensures WholeHello(xs[..n], h) ==> WholeHello(xs, h)
  {
    hide AllSegments, PlainSegments, PrintHello;
    PlaintextsPrefix(xs, n);
    SegmentsOfPrefix(Plaintexts(xs), n);
    var some, all := AllSegments(Plaintexts(xs[..n])), AllSegments(Plaintexts(xs));
    forall i: nat | CoveredBy(some, i)
      ensures CoveredBy(all, i)
    {
    }
  }

  lemma NotYetWhole(c: Crypto, xs: seq<InitialDatagram>, nows: seq<int>, version: nat, dcid: bytes, bound: nat, h: Hello, name: bytes,
                    n: nat)
    requires Lawful(c) && Flight(c, xs, nows, version, dcid, bound, h, name) && n < |xs|
    ensures Carry(xs[..n], h) && !WholeHello(xs[..n], h)
  {
    hide OneFlight, Sendable, Named, Wires, Acceptable, AllSegments, PrintHello, Covered, Stretches;
    CarryPrefix(xs, h, |xs| - 1);
    CarryPrefix(xs[..|xs| - 1], h, n);
    assert xs[..|xs| - 1][..n] == xs[..n];
  }

  /** What the flight gives for its first n datagrams and the next. */
  lemma FlightAt(c: Crypto, xs: seq<InitialDatagram>, nows: seq<int>, version: nat, dcid: bytes, bound: nat, h: Hello, name: bytes, n: nat)
    requires Lawful(c) && Flight(c, xs, nows, version, dcid, bound, h, name) && n < |xs|
    ensures xs[..n] + [xs[n]] == xs[..n + 1]
    ensures OneFlight(xs[..n], version, dcid, bound) && OneFlight(xs[..n + 1], version, dcid, bound)
    ensures Carry(xs[..n + 1], h) && Named(h, name) && Sendable(xs[n])
    ensures AllSendable(xs[..n + 1])
    ensures Timely(c, xs[..n], xs[n], LastTime(nows, n), nows[n])
  {
    hide *;
    FlightShape(c, xs, nows, version, dcid, bound, h, name);
    CarryPrefix(xs, h, n + 1);
    assert xs[..n] + [xs[n]] == xs[..n + 1];
    PartOfFlight(xs, version, dcid, bound, n);
    PartOfFlight(xs, version, dcid, bound, n + 1);
    PartTimely(c, xs, nows, version, dcid, bound, h, name, n);
    OneSendable(xs, n);
  }

  lemma OneSendable(xs: seq<InitialDatagram>, n: nat)
    requires AllSendable(xs) && n < |xs|
    ensures Sendable(xs[n])
  {
  }

  lemma FlightShape(c: Crypto, xs: seq<InitialDatagram>, nows: seq<int>, version: nat, dcid: bytes, bound: nat, h: Hello, name: bytes)
    requires Lawful(c) && Flight(c, xs, nows, version, dcid, bound, h, name)
    ensures xs != [] && |nows| == |xs| && OneFlight(xs, version, dcid, bound)
    ensures AllSendable(xs)
    ensures Carry(xs, h) && Named(h, name)
  {
    hide OneFlight, Sendable, Named, Wires, Carry, WholeHello, AlmostWhole;
  }

  lemma PartOfFlight(xs: seq<InitialDatagram>, version: nat, dcid: bytes, bound: nat, n: nat)
    requires OneFlight(xs, version, dcid, bound) && n <= |xs|
    ensures OneFlight(xs[..n], version, dcid, bound) && AllSendable(xs[..n])
  {
    hide Sendable, Quiet, Pow256;
  }

  lemma PartTimely(c: Crypto, xs: seq<InitialDatagram>, nows: seq<int>, version: nat, dcid: bytes, bound: nat, h: Hello, name: bytes, n: nat)
    requires Lawful(c) && Flight(c, xs, nows, version, dcid, bound, h, name) && n < |xs|
    requires xs[..n] + [xs[n]] == xs[..n + 1] && AllSendable(xs[..n + 1])
    ensures |nows| == |xs|
    ensures Timely(c, xs[..n], xs[n], LastTime(nows, n), nows[n])
  {
    hide OneFlight, Sendable, Named, Carry, WholeHello, AlmostWhole, Wire, Lawful, TotalSize;
    SizeOfPrefix(Wires(c, xs), n + 1);
    assert Wires(c, xs[..n + 1]) == Wires(c, xs)[..n + 1];
  }

  lemma {:induction false} SizeOfPrefix(ds: seq<bytes>, n: nat)
    requires n <= |ds|
    ensures TotalSize(ds[..n]) <= TotalSize(ds)
  {
    TotalSizeAppend(ds[..n], ds[n..]);
    assert ds[..n] + ds[n..] == ds;
  }

  ghost predicate IsFed(c: Crypto, es: seq<Event>, key: Key, entry: nat, from: nat, until: nat, xs: seq<InitialDatagram>, nows: seq<int>)
    requires Lawful(c) && AllSendable(xs) && |nows| == |xs| && from <= until <= |es|
  {
    Fed(es, key, entry, from, until) == Times(c, xs, nows)
  }

  /** The time of the last of n datagrams. */
  function LastTime(nows: seq<int>, n: nat): (t: int)
    requires n <= |nows|
  {
    if n == 0 then 0 else nows[n - 1]
  }

  lemma LastTimeIs(nows: seq<int>, n: nat)
    requires 0 < n <= |nows|
    ensures LastTime(nows, n) == nows[n - 1]
  {
  }

  /** The entry at a point of the run: it holds what it was fed so far, the last of it at that time. */
  ghost predicate EntryOf(c: Crypto, m: ManagerState, key: Key, entry: nat, xs: seq<InitialDatagram>, version: nat, dcid: bytes,
                          bound: nat, last: int)
    requires Lawful(c) && OneFlight(xs, version, dcid, bound)
  {
    key in m.pending && m.pending[key].id == entry && HoldsFlight(c, m.pending[key].state, xs, version, dcid, bound, last)
  }

  /** Until the last datagram the entry waits, whatever else happens in between. */
  lemma {:induction false} EntryWaits(c: Crypto, ws: seq<World>, es: seq<Event>, key: Key, entry: nat, from: nat, k: nat, until: nat,
                                      xs: seq<InitialDatagram>, nows: seq<int>, version: nat, dcid: bytes, bound: nat, h: Hello, name: bytes)
    requires Lawful(c) && SessionRuns.IsRun(c, ws, es) && Flight(c, xs, nows, version, dcid, bound, h, name)
    requires from <= k < until <= |es| && IsFed(c, es, key, entry, from, until, xs, nows) && ForEntry(es[until - 1], key, entry)
    requires key in ws[from].m.pending && ws[from].m.pending[key] == Held(entry, NO_DATAGRAMS)
    ensures var n := |Fed(es, key, entry, from, k)|;
      n < |xs| && OneFlight(xs[..n], version, dcid, bound)
      && EntryOf(c, ws[k].m, key, entry, xs[..n], version, dcid, bound, LastTime(nows, n))
    decreases k
  {
    hide *;
    FlightShape(c, xs, nows, version, dcid, bound, h, name);
    var n := FedSoFar(c, es, key, entry, from, k, until, xs, nows);
    FlightAt(c, xs, nows, version, dcid, bound, h, name, n);
    RunShape(c, ws, es, k);
    if k == from {
      PartOfFlight(xs, version, dcid, bound, 0);
      NothingFed(c, ws[from].m, es, key, entry, from, xs, nows, version, dcid, bound);
    } else {
      EntryWaits(c, ws, es, key, entry, from, k - 1, until, xs, nows, version, dcid, bound, h, name);
      RunKeepsInvariant(c, ws, es, k - 1);
      OneMoreFed(es, key, entry, from, k);
      if ForEntry(es[k - 1], key, entry) {
        FlightAt(c, xs, nows, version, dcid, bound, h, name, n - 1);
        NotYetWhole(c, xs, nows, version, dcid, bound, h, name, n);
        LastTimeIs(nows, n);
        FedEvent(c, ws[k - 1], es[k - 1], key, entry, xs[..n - 1], xs[n - 1], version, dcid, bound, LastTime(nows, n - 1), h, name);
      } else {
        EntryStays(c, ws[k - 1], es[k - 1], key, entry, xs[..n], version, dcid, bound, LastTime(nows, n));
      }
    }
  }

  lemma RunShape(c: Crypto, ws: seq<World>, es: seq<Event>, k: nat)
    requires SessionRuns.IsRun(c, ws, es) && k <= |es|
    ensures |ws| == |es| + 1
    ensures k > 0 ==> Enabled(ws[k - 1], es[k - 1]) && ws[k] == SessionRuns.After(c, ws[k - 1], es[k - 1])
  {
    hide Enabled, SessionRuns.After;
  }

  lemma NothingFed(c: Crypto, m: ManagerState, es: seq<Event>, key: Key, entry: nat, from: nat, xs: seq<InitialDatagram>, nows: seq<int>,
                   version: nat, dcid: bytes, bound: nat)
    requires Lawful(c) && from <= |es| && |nows| == |xs| && OneFlight(xs[..0], version, dcid, bound)
    requires key in m.pending && m.pending[key] == Held(entry, NO_DATAGRAMS)
    ensures |Fed(es, key, entry, from, from)| == 0 && EntryOf(c, m, key, entry, xs[..0], version, dcid, bound, LastTime(nows, 0))
  {
    hide Lawful, HoldsFlight, OneFlight;
    EmptyHolds(c, version, dcid, bound, 0);
    assert xs[..0] == [];
  }

  lemma OneMoreFed(es: seq<Event>, key: Key, entry: nat, from: nat, k: nat)
    requires from < k <= |es|
    ensures |Fed(es, key, entry, from, k)| == |Fed(es, key, entry, from, k - 1)| + if ForEntry(es[k - 1], key, entry) then 1 else 0
  {
  }

  lemma EntryStays(c: Crypto, w: World, e: Event, key: Key, entry: nat, xs: seq<InitialDatagram>, version: nat, dcid: bytes, bound: nat,
                   last: int)
    requires Lawful(c) && SessionRuns.Invariant(w) && Enabled(w, e) && !ForEntry(e, key, entry)
    requires OneFlight(xs, version, dcid, bound) && EntryOf(c, w.m, key, entry, xs, version, dcid, bound, last)
    ensures EntryOf(c, SessionRuns.After(c, w, e).m, key, entry, xs, version, dcid, bound, last)
  {
    hide Lawful, HoldsFlight, OneFlight, Enabled, ForEntry, SessionRuns.Invariant, SessionRuns.After;
    OthersLeaveEntry(c, w, e, key, entry);
  }

  /** How many were fed, and that the next one fed is the next of the flight. */
  lemma FedSoFar(c: Crypto, es: seq<Event>, key: Key, entry: nat, from: nat, k: nat, until: nat, xs: seq<InitialDatagram>, nows: seq<int>)
    returns (n: nat)
    requires Lawful(c) && AllSendable(xs) && |nows| == |xs|
    requires from <= k < until <= |es| && IsFed(c, es, key, entry, from, until, xs, nows) && ForEntry(es[until - 1], key, entry)
    ensures n == |Fed(es, key, entry, from, k)| < |xs|
    ensures k > from && ForEntry(es[k - 1], key, entry) ==>
      n > 0 && es[k - 1].data == Wire(c, xs[n - 1]) && es[k - 1].now == nows[n - 1]
    ensures k == until - 1 ==> n == |xs| - 1 && es[k].data == Wire(c, xs[n]) && es[k].now == nows[n]
  {
    hide Sendable, Wire, Lawful;
    FedIsPrefix(es, key, entry, from, k, until - 1);
    n := |Fed(es, key, entry, from, k)|;
    var all := Fed(es, key, entry, from, until);
    assert all == Fed(es, key, entry, from, until - 1) + [(es[until - 1].data, es[until - 1].now)];
    if k > from && ForEntry(es[k - 1], key, entry) {
      assert Fed(es, key, entry, from, k)[n - 1] == (es[k - 1].data, es[k - 1].now) == all[n - 1];
    }
    if k == until - 1 {
      assert all[n] == (es[k].data, es[k].now);
    }
  }

  /** This event replaces the entry by a new session that is handed the datagrams of the flight, in the order of their numbers. */
  ghost predicate PromotedHere(c: Crypto, w: World, e: Event, xs: seq<InitialDatagram>)
    requires Lawful(c) && AllSendable(xs) && e.ContinueEvent? && Enabled(w, e)
  {
    var r := Continue(c, w.m, e.key, e.entry, e.data, e.now, e.target);
    && r.verdict.Promoted? && Flushed(FlightPackets(c, xs), r.verdict.datagrams)
    && SessionRuns.After(c, w, e).m == r.m
    && e.key !in r.m.pending && e.key in r.m.sessions && r.m.sessions[e.key] == r.verdict.session
  }

  lemma FedEvent(c: Crypto, w: World, e: Event, key: Key, entry: nat, xs: seq<InitialDatagram>, i: InitialDatagram, version: nat,
                 dcid: bytes, bound: nat, last: int, h: Hello, name: bytes)
    requires Lawful(c) && SessionRuns.Invariant(w) && Enabled(w, e) && ForEntry(e, key, entry)
    requires OneFlight(xs, version, dcid, bound) && OneFlight(xs + [i], version, dcid, bound)
    requires EntryOf(c, w.m, key, entry, xs, version, dcid, bound, last) && Sendable(i) && e.data == Wire(c, i)
    requires Carry(xs + [i], h) && Named(h, name) && AllSendable(xs + [i]) && Timely(c, xs, i, last, e.now)
    ensures !WholeHello(xs + [i], h) ==>
      EntryOf(c, SessionRuns.After(c, w, e).m, key, entry, xs + [i], version, dcid, bound, e.now)
    ensures WholeHello(xs + [i], h) && e.target.Outbound? ==> PromotedHere(c, w, e, xs + [i])
  {
    SaneOf(w.m);
    ContinueStep(c, w, e, key, entry);
    hide Bounded, Registered, Continue, Flushed, Sane, OneFlight, HoldsFlight, Carry, WholeHello, Named, Sendable, Wire, Lawful,
      Timely, FlightPackets, SessionRuns.After, Enabled;
    FlightContinues(c, w.m, key, xs, i, version, dcid, bound, last, h, name, e.now, e.target);
  }

  lemma ContinueStep(c: Crypto, w: World, e: Event, key: Key, entry: nat)
    requires Enabled(w, e) && ForEntry(e, key, entry) && Sane(w.m)
    ensures SessionRuns.After(c, w, e).m == Continue(c, w.m, key, entry, e.data, e.now, e.target).m
  {
    hide Continue, Sane;
  }

  /**
   * The flow is promoted. In any run, let an entry just made be fed, among any other events, the datagrams of a flight of
   * one connection whose payloads together make up a ClientHello with a host name, each within five seconds of the one
   * before and within 256 KiB in all, the last one completing it. With an outbound, the event of the last datagram takes
   * the entry away and puts in its place a new session, which is handed every datagram, in the order of their numbers.
   */
  lemma FlightIsPromoted(c: Crypto, ws: seq<World>, es: seq<Event>, key: Key, entry: nat, from: nat, until: nat,
                         xs: seq<InitialDatagram>, nows: seq<int>, version: nat, dcid: bytes, bound: nat, h: Hello, name: bytes)
    requires Lawful(c) && SessionRuns.IsRun(c, ws, es) && Flight(c, xs, nows, version, dcid, bound, h, name)
    requires from < until <= |es| && IsFed(c, es, key, entry, from, until, xs, nows)
    requires ForEntry(es[until - 1], key, entry) && es[until - 1].target.Outbound?
    requires key in ws[from].m.pending && ws[from].m.pending[key] == Held(entry, NO_DATAGRAMS)
    ensures PromotedHere(c, ws[until - 1], es[until - 1], xs) && ws[until].m == SessionRuns.After(c, ws[until - 1], es[until - 1]).m
  {
    hide *;
    RunShape(c, ws, es, until);
    FlightShape(c, xs, nows, version, dcid, bound, h, name);
    var n := FedSoFar(c, es, key, entry, from, until - 1, until, xs, nows);
    EntryWaits(c, ws, es, key, entry, from, until - 1, until, xs, nows, version, dcid, bound, h, name);
    RunKeepsInvariant(c, ws, es, until - 1);
    FlightAt(c, xs, nows, version, dcid, bound, h, name, n);
    assert xs[..n + 1] == xs;
    FlightIsWhole(c, xs, nows, version, dcid, bound, h, name);
    FedEvent(c, ws[until - 1], es[until - 1], key, entry, xs[..n], xs[n], version, dcid, bound, LastTime(nows, n), h, name);
  }

  lemma FlightIsWhole(c: Crypto, xs: seq<InitialDatagram>, nows: seq<int>, version: nat, dcid: bytes, bound: nat, h: Hello, name: bytes)
    requires Lawful(c) && Flight(c, xs, nows, version, dcid, bound, h, name)
    ensures Carry(xs, h) && WholeHello(xs, h)
  {
    hide OneFlight, Sendable, Named, Wires, Carry, WholeHello, AlmostWhole;
  }
}
