/** Transparent-proxy UDP sessions: the critical sections of tproxyUDPSessionManager. */
module SessionManager {
  import opened Bytes
  import opened Reassembly
  import opened Packet
  import opened Collector
  import opened Pending

  const MAX_SESSIONS: nat := 1024

  /** Source and destination of a flow. */
  datatype Key = Key(src: nat, dst: nat)

  /** Where a flow goes: nowhere, or to an outbound with these hints. */
  datatype Target = Nowhere | Outbound(udp: bool, http3: bool)

  datatype Held = Held(id: nat, state: PendingState)

  /** Sessions and pending entries are named in order of creation; keyOf lists the keys of the sessions. */
  datatype ManagerState = ManagerState(sessions: map<Key, nat>, pending: map<Key, Held>, keyOf: seq<Key>, nextPending: nat)

  const NO_SESSIONS: ManagerState := ManagerState(map[], map[], [], 0)

  predicate Sane(m: ManagerState) {
    forall k :: k in m.pending ==> Sound(m.pending[k].state.collector.buffer)
  }

  /** The flow is admitted at all; `initial` says whether the datagram is a QUIC Initial. */
  predicate Allowed(target: Target, initial: bool) {
    target.Outbound? && (target.udp || (target.http3 && initial))
  }

  datatype StartResult = StartResult(m: ManagerState, started: Option<nat>)

  /** startSession, which runs with the manager locked. */
  function Start(m: ManagerState, key: Key, datagrams: seq<bytes>): (r: StartResult)
  {
    if datagrams == [] || key in m.sessions || |m.sessions| >= MAX_SESSIONS then StartResult(m, None)
    else StartResult(m.(sessions := m.sessions[key := |m.keyOf|], keyOf := m.keyOf + [key]), Some(|m.keyOf|))
  }

  /** What dispatch does with a datagram: queue it, go on with a pending entry, start a session, or drop it. */
  datatype Dispatched = ToSession(session: nat) | ToPending(entry: nat) | Opened(session: nat, datagrams: seq<bytes>) | Dropped

  datatype DispatchResult = DispatchResult(m: ManagerState, verdict: Dispatched)

  /** The locked part of dispatch. */
  function Dispatch(m: ManagerState, key: Key, data: bytes, target: Target, initial: bool): (r: DispatchResult)
    ensures Sane(m) ==> Sane(r.m)
  {
    if key in m.sessions then DispatchResult(m, ToSession(m.sessions[key]))
    else if key in m.pending then DispatchResult(m, ToPending(m.pending[key].id))
    else if |m.sessions| + |m.pending| >= MAX_SESSIONS then DispatchResult(m, Dropped)
    else if !Allowed(target, initial) then DispatchResult(m, Dropped)
    else if target.http3 && initial then
      DispatchResult(m.(pending := m.pending[key := Held(m.nextPending, NO_DATAGRAMS)], nextPending := m.nextPending + 1),
                     ToPending(m.nextPending))
    else
      var s := Start(m, key, [data]);
      DispatchResult(s.m, if s.started.Some? then Opened(s.started.value, [data]) else Dropped)
  }

  /** What continuePending does: nothing, wait on, give up, or promote the entry to a session. */
  datatype Continued = Stale | Wait | GivenUp | Promoted(session: nat, datagrams: seq<bytes>)

  datatype ContinueResult = ContinueResult(m: ManagerState, verdict: Continued)

  /** Promotion: the entry goes, and a session takes its place unless there is nowhere to send it. */
  function Promote(m: ManagerState, key: Key, datagrams: seq<bytes>, target: Target): (r: ContinueResult)
  {
    var rest := m.(pending := m.pending - {key});
    if target.Nowhere? then ContinueResult(rest, GivenUp)
    else
      var s := Start(rest, key, datagrams);
      ContinueResult(s.m, if s.started.Some? then Promoted(s.started.value, datagrams) else GivenUp)
  }

  /** continuePending for the entry that dispatch found or made, which may have been replaced since. */
  function Continue(c: Crypto, m: ManagerState, key: Key, entry: nat, data: bytes, now: int, target: Target): (r: ContinueResult)
    requires Sane(m)
    ensures Sane(r.m)
  {
    if key !in m.pending || m.pending[key].id != entry then ContinueResult(m, Stale)
    else
      var held := m.pending[key].state;
      var gone := m.(pending := m.pending - {key});
      if IsExpired(held, now) then ContinueResult(gone, GivenUp)
      else
        var a := AddPending(c, held, data, now);
        if a.sni.None? || a.state.size > PENDING_BYTES then ContinueResult(gone, GivenUp)
        else if a.sni.value == [] then ContinueResult(m.(pending := m.pending[key := Held(entry, a.state)]), Wait)
        else Promote(m, key, Payloads(SortByPN(a.state.packets)), target)
  }

  /** The second half of remove, with the manager locked. */
  function Unlist(m: ManagerState, session: nat): (m': ManagerState)
    requires session < |m.keyOf|
  {
    var key := m.keyOf[session];
    if key in m.sessions && m.sessions[key] == session then m.(sessions := m.sessions - {key}) else m
  }

  // ---- what the sections keep and what their verdicts mean ----------------

  /** No key twice, no more than the limit in all, and sessions and entries filed under their own names. */
  ghost predicate Bounded(m: ManagerState) {
    && Sane(m)
    && m.sessions.Keys !! m.pending.Keys
    && |m.sessions| + |m.pending| <= MAX_SESSIONS
    && Entered(m)
    && Filed(m)
  }

  ghost predicate Entered(m: ManagerState) {
    forall k :: k in m.pending ==> m.pending[k].id < m.nextPending && Tracked(m.pending[k].state)
  }

  ghost predicate Filed(m: ManagerState) {
    forall k :: k in m.sessions ==> m.sessions[k] < |m.keyOf| && m.keyOf[m.sessions[k]] == k
  }

  /** The size of an entry is that of the datagrams it holds, and its clock runs from the first of them on. */
  ghost predicate Tracked(st: PendingState) {
    Holds(st, Payloads(st.packets))
  }

  function Total(m: ManagerState): (n: nat) {
    |m.sessions| + |m.pending|
  }

  lemma NewBounded(m: ManagerState, m': ManagerState, key: Key)
    requires Bounded(m) && key !in m.pending && key !in m.sessions && Total(m) < MAX_SESSIONS
    requires m'.pending == m.pending && m'.nextPending == m.nextPending
    requires m'.sessions == m.sessions[key := |m.keyOf|] && m'.keyOf == m.keyOf + [key]
    ensures Bounded(m') && |m'.sessions| == |m.sessions| + 1
  {
    SamePending(m, m');
    NewFiled(m, m', key);
    MapGrows(m.sessions, key, |m.keyOf|);
    EntriesStay(m, m');
    hide Entered, Sane, Filed;
  }

  lemma MapGrows<T>(entries: map<Key, T>, key: Key, v: T)
    requires key !in entries
    ensures |entries[key := v]| == |entries| + 1 && entries[key := v].Keys == entries.Keys + {key}
  {
    assert entries[key := v].Keys == entries.Keys + {key};
    assert |entries[key := v].Keys| == |entries.Keys| + 1;
  }

  lemma EntriesStay(m: ManagerState, m': ManagerState)
    requires Bounded(m) && m'.pending == m.pending && m'.nextPending == m.nextPending
    ensures Entered(m')
  {
    hide Tracked, Sane, Filed;
  }

  lemma NewFiled(m: ManagerState, m': ManagerState, key: Key)
    requires Filed(m) && m'.sessions == m.sessions[key := |m.keyOf|] && m'.keyOf == m.keyOf + [key]
    ensures Filed(m')
  {
  }

  lemma SamePending(m: ManagerState, m': ManagerState)
    requires Sane(m) && m'.pending == m.pending
    ensures Sane(m')
  {
  }

  lemma WithoutKey(m: ManagerState, key: Key)
    requires Bounded(m) && key in m.pending
    ensures Bounded(m.(pending := m.pending - {key}))
    ensures |m.pending - {key}| == |m.pending| - 1
  {
    hide Tracked;
    assert (m.pending - {key}).Keys == m.pending.Keys - {key};
    assert |(m.pending - {key}).Keys| == |m.pending.Keys| - 1;
  }

  lemma NothingTracked()
    ensures Tracked(NO_DATAGRAMS)
  {
    NothingHeld();
    assert Payloads(NO_DATAGRAMS.packets) == [];
  }

  lemma NewPending(m: ManagerState, key: Key)
    requires Bounded(m) && key !in m.sessions && key !in m.pending && Total(m) < MAX_SESSIONS
    ensures var m' := m.(pending := m.pending[key := Held(m.nextPending, NO_DATAGRAMS)], nextPending := m.nextPending + 1);
      Bounded(m') && Total(m') == Total(m) + 1
  {
    MapGrows(m.pending, key, Held(m.nextPending, NO_DATAGRAMS));
    NewEntered(m, key);
    StaysFiled(m, m.pending[key := Held(m.nextPending, NO_DATAGRAMS)]);
    hide Sane, Filed, Entered, NO_DATAGRAMS;
  }

  lemma NewEntered(m: ManagerState, key: Key)
    requires Sane(m) && Entered(m)
    ensures var m' := m.(pending := m.pending[key := Held(m.nextPending, NO_DATAGRAMS)], nextPending := m.nextPending + 1);
      Sane(m') && Entered(m')
  {
    NothingTracked();
    hide Tracked;
  }

  lemma StaysFiled(m: ManagerState, pending: map<Key, Held>)
    requires Filed(m)
    ensures Filed(m.(pending := pending, nextPending := m.nextPending + 1))
  {
  }

  /** Only this flow's place in the maps may differ. */
  ghost predicate OthersUntouched(m: ManagerState, m': ManagerState, key: Key) {
    forall k :: k != key ==> SameAt(m, m', k)
  }

  ghost predicate SameAt(m: ManagerState, m': ManagerState, k: Key) {
    && (k in m.sessions <==> k in m'.sessions) && (k in m.sessions ==> m'.sessions[k] == m.sessions[k])
    && (k in m.pending <==> k in m'.pending) && (k in m.pending ==> m'.pending[k] == m.pending[k])
  }

  /** A session is listed under its key until it is removed for good. */
  ghost predicate Listed(m: ManagerState, s: nat) {
    s < |m.keyOf| && m.keyOf[s] in m.sessions && m.sessions[m.keyOf[s]] == s
  }

  /**
   * What dispatch does with a datagram of a flow. An open session takes it whatever the limit, a flow that waits has it
   * added to its entry. For a flow not yet known, with fewer than 1024 sessions and entries: one that goes to an outbound
   * for HTTP/3 and starts with a QUIC Initial is told to wait, under a name never used before; another one that the
   * outbound's UDP admits is given a session with just this datagram; and all else is dropped, which changes nothing.
   */
  ghost predicate DispatchSound(m: ManagerState, m': ManagerState, verdict: Dispatched, key: Key, data: bytes, target: Target,
                                initial: bool)
  {
    var known := key in m.sessions || key in m.pending;
    var hello := target.Outbound? && target.http3 && initial;
    && OthersUntouched(m, m', key)
    && (verdict.ToSession? <==> key in m.sessions)
    && (verdict.ToSession? ==> m' == m && m.sessions[key] == verdict.session)
    && (verdict.ToPending? <==> (key in m.pending && key !in m.sessions) || (!known && Total(m) < 1024 && hello))
    && (verdict.ToPending? ==> key in m'.pending && m'.pending[key].id == verdict.entry && m'.sessions == m.sessions)
    && (verdict.ToPending? && key in m.pending ==> m' == m)
    && (verdict.ToPending? && key !in m.pending ==>
          m'.pending[key].state == NO_DATAGRAMS && verdict.entry == m.nextPending && m'.nextPending == m.nextPending + 1)
    && (verdict.Opened? <==> !known && Total(m) < 1024 && !hello && target.Outbound? && target.udp)
    && (verdict.Opened? ==>
          verdict.datagrams == [data] && m'.pending == m.pending && verdict.session == |m.keyOf|
          && key in m'.sessions && m'.sessions[key] == verdict.session)
    && (verdict.Dropped? <==> !known && (Total(m) >= 1024 || target.Nowhere? || (!target.udp && !hello)))
    && (verdict.Dropped? ==> m' == m)
  }

  lemma DispatchVerdict(m: ManagerState, key: Key, data: bytes, target: Target, initial: bool)
    requires Bounded(m)
    ensures var r := Dispatch(m, key, data, target, initial);
      && Bounded(r.m) && Total(m) <= Total(r.m) <= Total(m) + 1
      && DispatchSound(m, r.m, r.verdict, key, data, target, initial)
  {
    hide Sane, Tracked;
    if key !in m.sessions && key !in m.pending && Total(m) < MAX_SESSIONS && Allowed(target, initial) {
      hide Bounded, DispatchSound;
      if target.http3 && initial {
        PendingSound(m, key, data, target);
      } else {
        OpenedSound(m, key, data, target, initial);
      }
    }
  }

  lemma PendingSound(m: ManagerState, key: Key, data: bytes, target: Target)
    requires Bounded(m) && key !in m.sessions && key !in m.pending && Total(m) < MAX_SESSIONS
    requires target.Outbound? && target.http3
    ensures var m' := m.(pending := m.pending[key := Held(m.nextPending, NO_DATAGRAMS)], nextPending := m.nextPending + 1);
      Bounded(m') && Total(m') == Total(m) + 1 && DispatchSound(m, m', ToPending(m.nextPending), key, data, target, true)
  {
    hide Bounded;
    NewPending(m, key);
  }

  lemma OpenedSound(m: ManagerState, key: Key, data: bytes, target: Target, initial: bool)
    requires Bounded(m) && key !in m.sessions && key !in m.pending && Total(m) < MAX_SESSIONS
    requires target.Outbound? && target.udp && !(target.http3 && initial)
    ensures var r := Start(m, key, [data]);
      && r.started.Some? && Bounded(r.m) && Total(r.m) == Total(m) + 1
      && DispatchSound(m, r.m, Opened(r.started.value, [data]), key, data, target, initial)
  {
    hide Bounded;
    NewBounded(m, Start(m, key, [data]).m, key);
  }

  /** More than five seconds have passed since the last datagram the entry accepted. */
  ghost predicate Late(st: PendingState, now: int) {
    st.updated.Some? && now > st.updated.value + 5_000_000_000
  }

  /** What the collector hears in the datagram; None where it refuses it. */
  ghost function HeardIn(c: Crypto, st: PendingState, data: bytes): (h: Option<Heard>)
    requires Sound(st.collector.buffer)
  {
    AddDatagram(c, st.collector, data).found
  }

  /** The entry cannot go on: too late, refused, or more than 256 KiB with this datagram. */
  ghost predicate Spoilt(c: Crypto, st: PendingState, data: bytes, now: int)
    requires Sound(st.collector.buffer)
  {
    Late(st, now) || HeardIn(c, st, data).None? || TotalSize(Payloads(st.packets)) + |data| > 262144
  }

  /** The datagram has joined the entry: behind the others, under the lowest number it bears, and the clock starts again. */
  ghost predicate Joined(c: Crypto, st: PendingState, data: bytes, now: int, st': PendingState)
    requires Sound(st.collector.buffer)
  {
    && HeardIn(c, st, data).Some?
    && st'.packets == st.packets + [PendingPacket(HeardIn(c, st, data).value.lowestPN, data)]
    && st'.updated == Some(now) && st'.collector == AddDatagram(c, st.collector, data).state
  }

  /** The datagrams of these packets in the order of their numbers, those of one number as they came. */
  ghost predicate Flushed(packets: seq<PendingPacket>, datagrams: seq<bytes>) {
    exists sorted :: StablySorted(packets, sorted) && multiset(sorted) == multiset(packets) && Payloads(sorted) == datagrams
  }

  /**
   * What continuePending does with a datagram for an entry. A call for an entry since replaced changes nothing. Otherwise
   * the entry is given up exactly if it is spoilt, or the host name is there and no outbound; it waits exactly if it is not
   * spoilt and the name is missing, and then holds this datagram too; and it is promoted exactly if it is not spoilt, the
   * name is there and an outbound, to a session in its place that is handed everything held and this datagram.
   */
  ghost predicate ContinueSound(c: Crypto, m: ManagerState, m': ManagerState, verdict: Continued, key: Key, entry: nat, data: bytes,
                                now: int, target: Target)
    requires Sane(m)
  {
    && OthersUntouched(m, m', key)
    && (verdict.Stale? <==> key !in m.pending || m.pending[key].id != entry)
    && (verdict.Stale? ==> m' == m)
    && (!verdict.Stale? ==>
          var st := m.pending[key].state;
          var named := HeardIn(c, st, data).Some? && HeardIn(c, st, data).value.sni != [];
          && (verdict.GivenUp? <==> Spoilt(c, st, data, now) || (named && target.Nowhere?))
          && (verdict.Wait? <==> !Spoilt(c, st, data, now) && !named)
          && (verdict.Promoted? <==> !Spoilt(c, st, data, now) && named && target.Outbound?)
          && (key in m'.pending <==> verdict.Wait?)
          && (!verdict.Promoted? ==> m'.sessions == m.sessions)
          && (verdict.Wait? ==> m'.pending[key].id == entry && Joined(c, st, data, now, m'.pending[key].state))
          && (verdict.Promoted? ==>
                verdict.session == |m.keyOf| && key in m'.sessions && m'.sessions[key] == verdict.session
                && Total(m') == Total(m)
                && Flushed(st.packets + [PendingPacket(HeardIn(c, st, data).value.lowestPN, data)], verdict.datagrams)))
  }

  lemma ContinueVerdict(c: Crypto, m: ManagerState, key: Key, entry: nat, data: bytes, now: int, target: Target)
    requires Bounded(m)
    ensures var r := Continue(c, m, key, entry, data, now, target);
      && Bounded(r.m) && Total(r.m) <= Total(m)
      && ContinueSound(c, m, r.m, r.verdict, key, entry, data, now, target)
  {
    SaneOf(m);
    hide SortByPN, Promote, Bounded, ContinueSound, AddPending, IsExpired, Spoilt, Joined, Continue, Flushed, HeardIn, Sane, Tracked;
    ContinueCases(c, m, key, entry, data, now, target);
    if key !in m.pending || m.pending[key].id != entry {
      StaleSound(c, m, key, entry, data, now, target);
    } else {
      HeldSound(m, key);
      var held := m.pending[key].state;
      AddedExactly(c, held, data, now);
      var a := AddPending(c, held, data, now);
      if IsExpired(held, now) || a.sni.None? || a.state.size > PENDING_BYTES {
        GivenUpSound(c, m, key, data, now, target);
      } else if a.sni.value == [] {
        WaitSound(c, m, key, data, now, target, a.state);
      } else {
        PromoteVerdict(c, m, key, data, now, target, Payloads(SortByPN(a.state.packets)));
      }
    }
  }

  /** The branches, one level down. */
  lemma ContinueCases(c: Crypto, m: ManagerState, key: Key, entry: nat, data: bytes, now: int, target: Target)
    requires Sane(m)
    ensures key !in m.pending || m.pending[key].id != entry ==>
      Continue(c, m, key, entry, data, now, target) == ContinueResult(m, Stale)
    ensures key in m.pending && m.pending[key].id == entry ==>
      && Sound(m.pending[key].state.collector.buffer)
      && var a := AddPending(c, m.pending[key].state, data, now);
      Continue(c, m, key, entry, data, now, target) ==
        if IsExpired(m.pending[key].state, now) || a.sni.None? || a.state.size > PENDING_BYTES
        then ContinueResult(m.(pending := m.pending - {key}), GivenUp)
        else if a.sni.value == [] then ContinueResult(m.(pending := m.pending[key := Held(entry, a.state)]), Wait)
        else Promote(m, key, Payloads(SortByPN(a.state.packets)), target)
  {
    hide SortByPN, Promote, AddPending, IsExpired;
  }

  lemma SaneOf(m: ManagerState)
    requires Bounded(m)
    ensures Sane(m)
  {
  }

  lemma HeldSound(m: ManagerState, key: Key)
    requires Bounded(m) && key in m.pending
    ensures Sane(m) && Sound(m.pending[key].state.collector.buffer) && Tracked(m.pending[key].state)
  {
    hide Sound, Tracked;
  }

  /** How the entry's own functions come out, in these words. */
  lemma AddedExactly(c: Crypto, st: PendingState, data: bytes, now: int)
    requires Tracked(st)
    ensures var a := AddPending(c, st, data, now);
      && (IsExpired(st, now) || a.sni.None? || a.state.size > PENDING_BYTES <==> Spoilt(c, st, data, now))
      && (a.sni.Some? <==> HeardIn(c, st, data).Some?)
      && (a.sni.Some? ==>
            && a.sni.value == HeardIn(c, st, data).value.sni && Joined(c, st, data, now, a.state)
            && Tracked(a.state) && Flushed(a.state.packets, Payloads(SortByPN(a.state.packets))))
  {
    hide AddDatagram, SortByPN, StablySorted;
    var a := AddPending(c, st, data, now);
    AddHolds(c, st, Payloads(st.packets), data, now);
    if a.sni.Some? {
      SortIsStable(a.state.packets);
      assert Payloads(a.state.packets) == Payloads(st.packets) + [data];
    }
  }

  lemma StaleSound(c: Crypto, m: ManagerState, key: Key, entry: nat, data: bytes, now: int, target: Target)
    requires Sane(m) && (key !in m.pending || m.pending[key].id != entry)
    ensures ContinueSound(c, m, m, Stale, key, entry, data, now, target)
  {
    hide Spoilt, Joined, Flushed;
  }

  lemma GivenUpSound(c: Crypto, m: ManagerState, key: Key, data: bytes, now: int, target: Target)
    requires Bounded(m) && Sane(m) && key in m.pending
    requires var st := m.pending[key].state;
      Spoilt(c, st, data, now) || (HeardIn(c, st, data).Some? && HeardIn(c, st, data).value.sni != [] && target.Nowhere?)
    ensures var m' := m.(pending := m.pending - {key});
      && Bounded(m') && Total(m') <= Total(m)
      && ContinueSound(c, m, m', GivenUp, key, m.pending[key].id, data, now, target)
  {
    hide Bounded, Spoilt, HeardIn, Joined, Flushed;
    WithoutKey(m, key);
  }

  lemma WaitSound(c: Crypto, m: ManagerState, key: Key, data: bytes, now: int, target: Target, state: PendingState)
    requires Bounded(m) && Sane(m) && key in m.pending && Tracked(state)
    requires var st := m.pending[key].state;
      !Spoilt(c, st, data, now) && HeardIn(c, st, data).Some? && HeardIn(c, st, data).value.sni == [] && Joined(c, st, data, now, state)
    ensures var m' := m.(pending := m.pending[key := Held(m.pending[key].id, state)]);
      && Bounded(m') && Total(m') == Total(m)
      && ContinueSound(c, m, m', Wait, key, m.pending[key].id, data, now, target)
  {
    WaitBounded(m, key, state);
    hide Bounded, Spoilt, HeardIn, Joined, Flushed;
  }

  lemma WaitBounded(m: ManagerState, key: Key, state: PendingState)
    requires Bounded(m) && key in m.pending && Tracked(state)
    ensures var m' := m.(pending := m.pending[key := Held(m.pending[key].id, state)]);
      Bounded(m') && Total(m') == Total(m)
  {
    assert Sound(state.collector.buffer);
    hide Sound, Tracked;
    assert m.pending[key := Held(m.pending[key].id, state)].Keys == m.pending.Keys;
  }

  lemma PromoteVerdict(c: Crypto, m: ManagerState, key: Key, data: bytes, now: int, target: Target, datagrams: seq<bytes>)
    requires Bounded(m) && Sane(m) && key in m.pending
    requires var st := m.pending[key].state;
      && !Spoilt(c, st, data, now) && HeardIn(c, st, data).Some? && HeardIn(c, st, data).value.sni != []
      && Flushed(st.packets + [PendingPacket(HeardIn(c, st, data).value.lowestPN, data)], datagrams)
    ensures var r := Promote(m, key, datagrams, target);
      && Bounded(r.m) && Total(r.m) <= Total(m)
      && ContinueSound(c, m, r.m, r.verdict, key, m.pending[key].id, data, now, target)
  {
    hide Bounded, ContinueSound, Spoilt, HeardIn, Flushed;
    if target.Nowhere? {
      GivenUpSound(c, m, key, data, now, target);
    } else {
      FlushedSize(m.pending[key].state.packets + [PendingPacket(HeardIn(c, m.pending[key].state, data).value.lowestPN, data)], datagrams);
      PromotedSound(c, m, key, data, now, target, datagrams);
    }
  }

  lemma FlushedSize(packets: seq<PendingPacket>, datagrams: seq<bytes>)
    requires Flushed(packets, datagrams)
    ensures |datagrams| == |packets|
  {
    hide StablySorted;
    var sorted :| StablySorted(packets, sorted) && multiset(sorted) == multiset(packets) && Payloads(sorted) == datagrams;
    assert |multiset(sorted)| == |sorted| && |multiset(packets)| == |packets|;
  }

  lemma PromotedSound(c: Crypto, m: ManagerState, key: Key, data: bytes, now: int, target: Target, datagrams: seq<bytes>)
    requires Bounded(m) && Sane(m) && key in m.pending && datagrams != [] && target.Outbound?
    requires var st := m.pending[key].state;
      && !Spoilt(c, st, data, now) && HeardIn(c, st, data).Some? && HeardIn(c, st, data).value.sni != []
      && Flushed(st.packets + [PendingPacket(HeardIn(c, st, data).value.lowestPN, data)], datagrams)
    ensures var r := Start(m.(pending := m.pending - {key}), key, datagrams);
      && r.started.Some? && Bounded(r.m) && Total(r.m) == Total(m)
      && ContinueSound(c, m, r.m, Promoted(r.started.value, datagrams), key, m.pending[key].id, data, now, target)
  {
    hide Bounded, Spoilt, HeardIn, Joined, Flushed;
    PromotedBounded(m, key, datagrams);
    assert OthersUntouched(m, Start(m.(pending := m.pending - {key}), key, datagrams).m, key);
  }

  lemma PromotedBounded(m: ManagerState, key: Key, datagrams: seq<bytes>)
    requires Bounded(m) && key in m.pending && datagrams != []
    ensures var r := Start(m.(pending := m.pending - {key}), key, datagrams);
      key !in m.sessions && r.started.Some? && Bounded(r.m) && Total(r.m) == Total(m)
  {
    WithoutKey(m, key);
    var rest := m.(pending := m.pending - {key});
    assert key !in m.sessions;
    hide Bounded;
    NewBounded(rest, Start(rest, key, datagrams).m, key);
  }

  /** A session that is listed goes, alone, and frees its place; one that is not changes nothing. */
  lemma UnlistVerdict(m: ManagerState, session: nat)
    requires Bounded(m) && session < |m.keyOf|
    ensures var key, m' := m.keyOf[session], Unlist(m, session);
      && Bounded(m') && OthersUntouched(m, m', key) && m'.pending == m.pending
      && (forall k :: k in m'.sessions ==> m'.sessions[k] != session)
      && (if Listed(m, session) then Total(m') == Total(m) - 1 else m' == m)
  {
    hide Tracked;
    var key, m' := m.keyOf[session], Unlist(m, session);
    if key in m.sessions && m.sessions[key] == session {
      assert m'.sessions.Keys == m.sessions.Keys - {key};
      assert |m'.sessions.Keys| == |m.sessions.Keys| - 1;
    }
  }

  // ---- the object ---------------------------------------------------------

  class TproxyUDPSessionManager {
    const crypto: Crypto
    var sessions: map<Key, nat>
    var pending: map<Key, Held>
    var keyOf: seq<Key>
    var nextPending: nat

    function State(): (m: ManagerState)
      reads this
    {
      ManagerState(sessions, pending, keyOf, nextPending)
    }

    ghost predicate Valid()
      reads this
    {
      Bounded(State())
    }

    constructor (c: Crypto)
      ensures crypto == c && State() == NO_SESSIONS && Valid()
    {
      crypto := c;
      sessions, pending, keyOf, nextPending := map[], map[], [], 0;
    }

    /** A session is made exactly if there is something to send, none is listed for the flow, and the limit allows it. */
    method StartSession(key: Key, datagrams: seq<bytes>) returns (started: Option<nat>)
      modifies this
      ensures StartResult(State(), started) == Start(old(State()), key, datagrams)
      ensures started.Some? <==> datagrams != [] && key !in old(sessions) && |old(sessions)| < MAX_SESSIONS
      ensures started.None? ==> State() == old(State())
      ensures started.Some? ==> sessions == old(sessions)[key := started.value] && pending == old(pending)
      ensures old(Valid()) && started.Some? ==> forall k :: k in old(sessions) ==> old(sessions)[k] != started.value
      ensures old(Valid() && key !in pending && Total(State()) < MAX_SESSIONS) ==> Valid()
    {
      ghost var before := State();
      if datagrams == [] || key in sessions {
        return None;
      }
      if |sessions| >= MAX_SESSIONS {
        return None;
      }
      var session := |keyOf|;
      keyOf := keyOf + [key];
      sessions := sessions[key := session];
      if Bounded(before) && key !in before.pending && Total(before) < MAX_SESSIONS {
        NewBounded(before, State(), key);
      }
      return Some(session);
    }

    method DispatchDatagram(key: Key, data: bytes, target: Target, initial: bool) returns (verdict: Dispatched)
      requires Valid()
      modifies this
      ensures Valid() && old(Total(State())) <= Total(State()) <= old(Total(State())) + 1
      ensures DispatchSound(old(State()), State(), verdict, key, data, target, initial)
      ensures DispatchResult(State(), verdict) == Dispatch(old(State()), key, data, target, initial)
    {
      hide Bounded, DispatchSound, OthersUntouched;
      DispatchVerdict(State(), key, data, target, initial);
      if key in sessions {
        return ToSession(sessions[key]);
      }
      if key in pending {
        return ToPending(pending[key].id);
      }
      if |sessions| + |pending| >= MAX_SESSIONS {
        return Dropped;
      }
      if target.Nowhere? || !Allowed(target, initial) {
        return Dropped;
      }
      if target.http3 && initial {
        var entry := nextPending;
        pending := pending[key := Held(entry, NO_DATAGRAMS)];
        nextPending := nextPending + 1;
        return ToPending(entry);
      }
      var started := StartSession(key, [data]);
      if started.None? {
        return Dropped;
      }
      return Opened(started.value, [data]);
    }

    method ContinuePending(key: Key, entry: nat, data: bytes, now: int, target: Target) returns (verdict: Continued)
      requires Valid()
      modifies this
      ensures Valid() && Total(State()) <= old(Total(State()))
      ensures Sane(old(State())) && ContinueSound(crypto, old(State()), State(), verdict, key, entry, data, now, target)
      ensures ContinueResult(State(), verdict) == Continue(crypto, old(State()), key, entry, data, now, target)
    {
      ContinueVerdict(crypto, State(), key, entry, data, now, target);
      hide AddPending, SortByPN, ContinueSound, Bounded, OthersUntouched;
      if key !in pending || pending[key].id != entry {
        return Stale;
      }
      var held := pending[key].state;
      if IsExpired(held, now) {
        pending := pending - {key};
        return GivenUp;
      }
      var a := AddPending(crypto, held, data, now);
      if a.sni.None? || a.state.size > PENDING_BYTES {
        pending := pending - {key};
        return GivenUp;
      }
      if a.sni.value == [] {
        pending := pending[key := Held(entry, a.state)];
        return Wait;
      }
      var datagrams := Payloads(SortByPN(a.state.packets));
      pending := pending - {key};
      if target.Nowhere? {
        return GivenUp;
      }
      var started := StartSession(key, datagrams);
      if started.None? {
        return GivenUp;
      }
      return Promoted(started.value, datagrams);
    }

    method UnlistSession(session: nat)
      requires Valid() && session < |keyOf|
      modifies this
      ensures Valid() && State() == Unlist(old(State()), session)
      ensures pending == old(pending) && forall k :: k in sessions ==> sessions[k] != session
      ensures OthersUntouched(old(State()), State(), old(keyOf)[session])
      ensures if Listed(old(State()), session) then Total(State()) == old(Total(State())) - 1 else State() == old(State())
    {
      UnlistVerdict(State(), session);
      hide Bounded, OthersUntouched, Listed;
      var key := keyOf[session];
      if key in sessions && sessions[key] == session {
        sessions := sessions - {key};
      }
    }
  }
}
