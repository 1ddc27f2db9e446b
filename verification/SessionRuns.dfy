/** Every interleaving of the session manager's critical sections. */
module SessionRuns {
  import opened Bytes
  import opened Reassembly
  import opened Packet
  import opened Collector
  import opened Pending
  import opened SessionManager

  /** closes[s] counts how often the done channel of session s was closed; unlisting holds removals between their halves. */
  datatype World = World(m: ManagerState, closes: seq<nat>, unlisting: set<nat>)

  const START: World := World(NO_SESSIONS, [], {})

  /** `remove` is two sections, Close under the session's lock and Unlist under the manager's; so is a dispatch that goes on. */
  datatype Event =
    | DispatchEvent(key: Key, data: bytes, target: Target, initial: bool)
    | ContinueEvent(key: Key, entry: nat, data: bytes, now: int, target: Target)
    | CloseEvent(session: nat)
    | UnlistEvent(session: nat)

  predicate Enabled(w: World, e: Event) {
    match e
    case DispatchEvent(_, _, _, _) => true
    case ContinueEvent(_, entry, _, _, _) => entry < w.m.nextPending && Sane(w.m)
    case CloseEvent(session) => session < |w.closes|
    case UnlistEvent(session) => session in w.unlisting && session < |w.m.keyOf|
  }

  /** Sessions just made start open. */
  function Grown(w: World, m: ManagerState): (w': World)
  {
    World(m, if |m.keyOf| > |w.closes| then w.closes + [0] else w.closes, w.unlisting)
  }

  function After(c: Crypto, w: World, e: Event): (w': World)
    requires Enabled(w, e)
  {
    match e
    case DispatchEvent(key, data, target, initial) => Grown(w, Dispatch(w.m, key, data, target, initial).m)
    case ContinueEvent(key, entry, data, now, target) => Grown(w, Continue(c, w.m, key, entry, data, now, target).m)
    case CloseEvent(session) =>
      if w.closes[session] > 0 then w
      else w.(closes := w.closes[session := w.closes[session] + 1], unlisting := w.unlisting + {session})
    case UnlistEvent(session) => World(Unlist(w.m, session), w.closes, w.unlisting - {session})
  }

  ghost predicate IsRun(c: Crypto, ws: seq<World>, es: seq<Event>) {
    && |ws| == |es| + 1 && ws[0] == START
    && forall k :: 0 <= k < |es| ==> Enabled(ws[k], es[k]) && ws[k + 1] == After(c, ws[k], es[k])
  }

  // ---- the invariant ------------------------------------------------------

  ghost predicate Registered(w: World) {
    && |w.closes| == |w.m.keyOf|
    && (forall s :: 0 <= s < |w.closes| ==> w.closes[s] <= 1)
    && (forall s: nat :: s < |w.closes| ==> (Listed(w.m, s) <==> w.closes[s] == 0 || s in w.unlisting))
    && (forall s :: s in w.unlisting ==> s < |w.closes| && w.closes[s] == 1)
  }

  ghost predicate Invariant(w: World) {
    Bounded(w.m) && Registered(w)
  }

  lemma StartKeeps(w: World, m: ManagerState, key: Key, datagrams: seq<bytes>)
    requires Invariant(w) && m.sessions == w.m.sessions && m.keyOf == w.m.keyOf && Bounded(m) && key !in m.pending
    requires |m.sessions| + |m.pending| < MAX_SESSIONS
    ensures Invariant(Grown(w, Start(m, key, datagrams).m))
  {
    hide Registered, Bounded;
    var m' := Start(m, key, datagrams).m;
    if m' != m {
      NewBounded(m, m', key);
      NewListed(w, m', key);
    } else {
      SameSessions(w, m);
    }
  }

  lemma NewListed(w: World, m': ManagerState, key: Key)
    requires Registered(w) && key !in w.m.sessions
    requires m'.sessions == w.m.sessions[key := |w.m.keyOf|] && m'.keyOf == w.m.keyOf + [key]
    ensures Registered(Grown(w, m'))
  {
    var w' := Grown(w, m');
    forall s: nat | s < |w'.closes|
      ensures Listed(w'.m, s) <==> w'.closes[s] == 0 || s in w'.unlisting
    {
      assert s < |w.closes| ==> (Listed(w.m, s) <==> Listed(w'.m, s));
    }
  }

  /** What is listed depends on the sessions only. */
  lemma SameSessions(w: World, m: ManagerState)
    requires Registered(w) && m.sessions == w.m.sessions && m.keyOf == w.m.keyOf
    ensures Registered(Grown(w, m))
  {
    assert forall s: nat :: Listed(m, s) <==> Listed(w.m, s);
  }

  lemma DispatchKeeps(w: World, key: Key, data: bytes, target: Target, initial: bool)
    requires Invariant(w)
    ensures Invariant(Grown(w, Dispatch(w.m, key, data, target, initial).m))
  {
    hide Bounded, Registered, Start;
    var m' := Dispatch(w.m, key, data, target, initial).m;
    SameSessions(w, w.m);
    if key !in w.m.sessions && key !in w.m.pending && |w.m.sessions| + |w.m.pending| < MAX_SESSIONS {
      NewPending(w.m, key);
      SameSessions(w, w.m.(pending := w.m.pending[key := Held(w.m.nextPending, NO_DATAGRAMS)], nextPending := w.m.nextPending + 1));
      StartKeeps(w, w.m, key, [data]);
    }
  }

  lemma ContinueKeeps(c: Crypto, w: World, key: Key, entry: nat, data: bytes, now: int, target: Target)
    requires Invariant(w)
    ensures Invariant(Grown(w, Continue(c, w.m, key, entry, data, now, target).m))
  {
    hide AddPending, SortByPN, Continue, Bounded, Registered, Sane, IsExpired, Start, ContinueSound;
    SaneOf(w.m);
    ContinueCases(c, w.m, key, entry, data, now, target);
    ContinueVerdict(c, w.m, key, entry, data, now, target);
    var m' := Continue(c, w.m, key, entry, data, now, target).m;
    if key in w.m.pending && w.m.pending[key].id == entry {
      WithoutKey(w.m, key);
      var gone := w.m.(pending := w.m.pending - {key});
      SameSessions(w, gone);
      if m'.sessions == w.m.sessions && m'.keyOf == w.m.keyOf {
        SameSessions(w, m');
      } else {
        GoneHasRoom(w.m, key);
        StartKeeps(w, gone, key, Payloads(SortByPN(AddPending(c, w.m.pending[key].state, data, now).state.packets)));
      }
    } else {
      SameSessions(w, w.m);
    }
  }

  lemma GoneHasRoom(m: ManagerState, key: Key)
    requires Bounded(m) && key in m.pending
    ensures |m.sessions| + |m.pending - {key}| < MAX_SESSIONS
  {
    WithoutKey(m, key);
    hide Sane;
  }

  lemma CloseKeeps(c: Crypto, w: World, s: nat)
    requires Invariant(w) && Enabled(w, CloseEvent(s))
    ensures Invariant(After(c, w, CloseEvent(s)))
  {
    hide Bounded;
  }

  lemma UnlistKeeps(c: Crypto, w: World, s: nat)
    requires Invariant(w) && Enabled(w, UnlistEvent(s))
    ensures Invariant(After(c, w, UnlistEvent(s)))
  {
    var w' := After(c, w, UnlistEvent(s));
    var key := w.m.keyOf[s];
    assert Listed(w.m, s);
    assert w'.m.sessions.Keys == w.m.sessions.Keys - {key};
    assert |w'.m.sessions.Keys| == |w.m.sessions.Keys| - 1;
    forall t: nat | t < |w'.closes|
      ensures Listed(w'.m, t) <==> w'.closes[t] == 0 || t in w'.unlisting
    {
      assert Listed(w'.m, t) <==> Listed(w.m, t) && t != s;
    }
  }

  lemma StepKeeps(c: Crypto, w: World, e: Event)
    requires Invariant(w) && Enabled(w, e)
    ensures Invariant(After(c, w, e))
  {
    hide Invariant, Dispatch, Continue;
    match e
    case DispatchEvent(key, data, target, initial) => DispatchKeeps(w, key, data, target, initial);
    case ContinueEvent(key, entry, data, now, target) => ContinueKeeps(c, w, key, entry, data, now, target);
    case CloseEvent(s) => CloseKeeps(c, w, s);
    case UnlistEvent(s) => UnlistKeeps(c, w, s);
  }

  /** Every state of every run: keys apart, at most 1024 in all, done closed at most once. */
  lemma {:induction false} RunKeepsInvariant(c: Crypto, ws: seq<World>, es: seq<Event>, k: nat)
    requires IsRun(c, ws, es) && k < |ws|
    ensures Invariant(ws[k])
  {
    hide Enabled, After;
    if k > 0 {
      RunKeepsInvariant(c, ws, es, k - 1);
      StepKeeps(c, ws[k - 1], es[k - 1]);
    }
  }

  // ---- what follows -------------------------------------------------------

  /**
   * Removing a session takes exactly that session off the list: no other session is unlisted, in particular none that was
   * started later for the same flow, and the slot does become free.
   */
  lemma RemovesOnlyItself(c: Crypto, ws: seq<World>, es: seq<Event>, k: nat, s: nat)
    requires IsRun(c, ws, es) && k < |ws| && s in ws[k].unlisting
    ensures s < |ws[k].m.keyOf|
    ensures var m, m' := ws[k].m, Unlist(ws[k].m, s);
      && Listed(m, s) && |m'.sessions| == |m.sessions| - 1
      && forall t :: t != s ==> (Listed(m', t) <==> Listed(m, t))
  {
    RunKeepsInvariant(c, ws, es, k);
    hide IsRun;
    var m, m' := ws[k].m, Unlist(ws[k].m, s);
    assert Listed(m, s);
    assert m'.sessions.Keys == m.sessions.Keys - {m.keyOf[s]};
  }

  /**
   * One session at a time per flow: of all sessions ever started for a key at most one is not yet removed for good, and
   * as long as one is open the flow has no pending entry.
   */
  lemma OneSessionPerFlow(c: Crypto, ws: seq<World>, es: seq<Event>, k: nat, s: nat, t: nat)
    requires IsRun(c, ws, es) && k < |ws| && s < |ws[k].closes| && t < |ws[k].closes|
    ensures |ws[k].closes| == |ws[k].m.keyOf|
    ensures Unremoved(ws[k], s) && Unremoved(ws[k], t) && ws[k].m.keyOf[s] == ws[k].m.keyOf[t] ==> s == t
    ensures Unremoved(ws[k], s) ==> ws[k].m.keyOf[s] !in ws[k].m.pending
  {
    RunKeepsInvariant(c, ws, es, k);
    hide IsRun;
    assert Unremoved(ws[k], s) ==> Listed(ws[k].m, s);
    assert Unremoved(ws[k], t) ==> Listed(ws[k].m, t);
  }

  /** Open, or closed and about to be taken off the list. */
  ghost predicate Unremoved(w: World, s: nat) {
    s < |w.closes| && (w.closes[s] == 0 || s in w.unlisting)
  }

  /**
   * Promotion never fails for want of room: an entry whose host name was found, with somewhere to send it, becomes a
   * session with all its datagrams, and the number of sessions and entries together stays what it was.
   */
  lemma PromotionSucceeds(c: Crypto, ws: seq<World>, es: seq<Event>, k: nat, key: Key, data: bytes, now: int, target: Target)
    requires IsRun(c, ws, es) && k < |ws|
    requires key in ws[k].m.pending && !IsExpired(ws[k].m.pending[key].state, now) && target.Outbound?
    requires Sound(ws[k].m.pending[key].state.collector.buffer)
    requires var a := AddPending(c, ws[k].m.pending[key].state, data, now);
      a.sni.Some? && a.sni.value != [] && a.state.size <= PENDING_BYTES
    ensures Sane(ws[k].m)
    ensures var m := ws[k].m;
      var r := Continue(c, m, key, m.pending[key].id, data, now, target);
      && r.verdict.Promoted?
      && r.verdict.datagrams == Payloads(SortByPN(AddPending(c, m.pending[key].state, data, now).state.packets))
      && key in r.m.sessions && r.m.sessions[key] == r.verdict.session && key !in r.m.pending
      && |r.m.sessions| + |r.m.pending| == |m.sessions| + |m.pending|
  {
    RunKeepsInvariant(c, ws, es, k);
    hide IsRun, Registered, Bounded, Continue, AddPending, SortByPN;
    PromotedAt(c, ws[k].m, key, data, now, target);
  }

  lemma PromotedAt(c: Crypto, m: ManagerState, key: Key, data: bytes, now: int, target: Target)
    requires Bounded(m) && key in m.pending && !IsExpired(m.pending[key].state, now) && target.Outbound?
    requires Sound(m.pending[key].state.collector.buffer)
    requires var a := AddPending(c, m.pending[key].state, data, now);
      a.sni.Some? && a.sni.value != [] && a.state.size <= PENDING_BYTES
    ensures Sane(m)
    ensures var datagrams := Payloads(SortByPN(AddPending(c, m.pending[key].state, data, now).state.packets));
      var r := Continue(c, m, key, m.pending[key].id, data, now, target);
      && r.verdict.Promoted? && r.verdict.datagrams == datagrams
      && key in r.m.sessions && r.m.sessions[key] == r.verdict.session && key !in r.m.pending
      && |r.m.sessions| + |r.m.pending| == |m.sessions| + |m.pending|
  {
    SaneOf(m);
    hide SortByPN, AddPending, Payloads, Continue, Bounded, Sane, Start, IsExpired;
    FlushNotEmpty(c, m.pending[key].state, data, now);
    ContinueCases(c, m, key, m.pending[key].id, data, now, target);
    var datagrams := Payloads(SortByPN(AddPending(c, m.pending[key].state, data, now).state.packets));
    PromotedBounded(m, key, datagrams);
    StartedHere(m.(pending := m.pending - {key}), key, datagrams);
  }

  lemma StartedHere(m: ManagerState, key: Key, datagrams: seq<bytes>)
    requires Start(m, key, datagrams).started.Some?
    ensures var r := Start(m, key, datagrams);
      key in r.m.sessions && r.m.sessions[key] == r.started.value && r.m.pending == m.pending
  {
  }

  /** A datagram just accepted is among those to be flushed. */
  lemma FlushNotEmpty(c: Crypto, st: PendingState, data: bytes, now: int)
    requires Sound(st.collector.buffer) && AddPending(c, st, data, now).sni.Some?
    ensures Payloads(SortByPN(AddPending(c, st, data, now).state.packets)) != []
  {
    hide AddDatagram, SortByPN;
    var packets := AddPending(c, st, data, now).state.packets;
    assert |packets| > 0;
    SortIsStable(packets);
    assert |multiset(SortByPN(packets))| == |multiset(packets)|;
  }
}
