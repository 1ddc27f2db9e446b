/** One registered SOCKS BIND port queue: its critical sections, and the threads that run them in any interleaving. */
module BindQueue {
  import opened Bytes

  // ---- the critical sections ----------------------------------------------

  /** What q.mu guards; a waiter is named by the thread that waits. */
  datatype QueueState = QueueState(listening: bool, waiters: seq<nat>, popped: set<nat>)

  datatype Acquired = Owner | ListenFailed | Queued

  datatype Looked = Looked(q: QueueState, result: Acquired)

  /** The locked part of acquireBindListener; `listens` says whether the port could be opened. */
  function Acquire(q: QueueState, t: nat, listens: bool): (l: Looked)
  {
    if !q.listening then
      if listens then Looked(q.(listening := true), Owner) else Looked(q, ListenFailed)
    else Looked(q.(waiters := q.waiters + [t], popped := q.popped - {t}), Queued)
  }

  datatype Forwarded = Forwarded(q: QueueState, next: Option<nat>)

  /** The locked part of forwardBindSlot. */
  function PopNext(q: QueueState): (f: Forwarded)
  {
    if !q.listening && |q.waiters| > 0 then
      Forwarded(q.(waiters := q.waiters[1..], popped := q.popped + {q.waiters[0]}), Some(q.waiters[0]))
    else Forwarded(q, None)
  }

  function Without(ws: seq<nat>, t: nat): (r: seq<nat>)
  {
    if ws == [] then [] else if ws[0] == t then ws[1..] else [ws[0]] + Without(ws[1..], t)
  }

  lemma WithoutStep(ws: seq<nat>, t: nat, i: nat)
    requires i < |ws|
    ensures ws[..i] + Without(ws[i..], t) ==
      if ws[i] == t then ws[..i] + ws[i + 1..] else ws[..i + 1] + Without(ws[i + 1..], t)
  {
    assert ws[i..][0] == ws[i] && ws[i..][1..] == ws[i + 1..];
    assert ws[..i + 1] == ws[..i] + [ws[i]];
  }

  ghost predicate Distinct(ws: seq<nat>) {
    forall i, j :: 0 <= i < j < |ws| ==> ws[i] != ws[j]
  }

  /** Removing from distinct waiters takes that one out, and leaves the others in their order. */
  lemma {:induction false} WithoutMembers(ws: seq<nat>, t: nat)
    requires Distinct(ws)
    ensures forall u :: u in Without(ws, t) <==> u in ws && u != t
    ensures Distinct(Without(ws, t))
    ensures |Without(ws, t)| == if t in ws then |ws| - 1 else |ws|
  {
    if ws != [] && ws[0] != t {
      WithoutMembers(ws[1..], t);
      assert ws == [ws[0]] + ws[1..];
      assert ws[0] !in Without(ws[1..], t);
    }
  }

  class BindPortQueue {
    var listening: bool
    var waiters: seq<nat>
    var popped: set<nat>

    function State(): (q: QueueState)
      reads this
    {
      QueueState(listening, waiters, popped)
    }

    /** No waiter is queued twice, and none that is queued has been popped. */
    ghost predicate Valid()
      reads this
    {
      Distinct(waiters) && forall t :: t in waiters ==> t !in popped
    }

    constructor ()
      ensures State() == QueueState(false, [], {}) && Valid()
    {
      listening, waiters, popped := false, [], {};
    }

    /** The slot is taken exactly if it is free and the port opens; a newcomer who finds it taken goes to the back. */
    method Look(t: nat, listens: bool) returns (r: Acquired)
      requires Valid() && t !in waiters
      modifies this
      ensures Valid() && Looked(State(), r) == Acquire(old(State()), t, listens)
      ensures listening <==> old(listening) || listens
      ensures r == Queued <==> old(listening)
      ensures r == Queued ==> waiters == old(waiters) + [t] && popped == old(popped) - {t}
      ensures r != Queued ==> waiters == old(waiters) && popped == old(popped) && (r == Owner <==> listening)
    {
      if !listening {
        if listens {
          listening := true;
          return Owner;
        }
        return ListenFailed;
      }
      waiters := waiters + [t];
      popped := popped - {t};
      return Queued;
    }

    /** First come, first popped; nobody is popped while the slot is taken, and a popped waiter is never popped again. */
    method Pop() returns (next: Option<nat>)
      requires Valid()
      modifies this
      ensures Valid() && Forwarded(State(), next) == PopNext(old(State()))
      ensures next.None? <==> old(listening) || old(waiters) == []
      ensures next.None? ==> State() == old(State())
      ensures next.Some? ==> old(waiters) == [next.value] + waiters && listening == old(listening)
      ensures next.Some? ==> next.value !in waiters && next.value !in old(popped) && popped == old(popped) + {next.value}
    {
      if !listening && |waiters| > 0 {
        var w := waiters[0];
        waiters := waiters[1..];
        popped := popped + {w};
        return Some(w);
      }
      return None;
    }

    method Release()
      requires Valid()
      modifies this
      ensures Valid() && State() == old(State()).(listening := false)
    {
      listening := false;
    }

    method RemoveWaiter(t: nat)
      requires Valid()
      modifies this
      ensures Valid() && State() == old(State()).(waiters := Without(old(waiters), t))
      ensures forall u :: u in waiters <==> u in old(waiters) && u != t
    {
      hide Distinct, Without;
      ghost var was := waiters;
      var i := 0;
      while i < |waiters| && waiters[i] != t
        invariant i <= |waiters| && waiters == was && listening == old(listening) && popped == old(popped)
        invariant Without(was, t) == was[..i] + Without(was[i..], t)
      {
        WithoutStep(was, t, i);
        i := i + 1;
      }
      if i < |waiters| {
        WithoutStep(was, t, i);
        waiters := waiters[..i] + waiters[i + 1..];
      } else {
        NothingToRemove(t);
        assert was[..i] + [] == was;
      }
      assert waiters == Without(was, t);
      WithoutMembers(was, t);
    }
  }

  lemma NothingToRemove(t: nat)
    ensures Without([], t) == []
  {
  }

  // ---- the threads --------------------------------------------------------

  /**
   * Where a thread stands. Arriving: about to look, for the first time or after a notification. Waiting: in the select.
   * Joining: notified, the watcher still to end. Cancelled: the done channel was taken. Draining: receiving the
   * notification it no longer wants. Forwarding, Sending: inside forwardBindSlot.
   */
  datatype Pc =
    | Arriving(again: bool) | Waiting | Joining | Cancelled | Draining | Listening | Forwarding | Sending(to: nat) | Gone

  /** The goroutine that watches the control connection: Removing and Finishing are the two halves of its abort. */
  datatype Watcher = Polling | Removing | Finishing | Ended

  /** `token` is what the waiter's notify channel holds, `done` whether its done channel is closed. */
  datatype Thread = Thread(pc: Pc, token: bool, done: bool, watcher: Watcher)

  datatype System = System(q: QueueState, threads: seq<Thread>)

  const IDLE: System := System(QueueState(false, [], {}), [])

  datatype Event =
    | Arrive
    | Look(t: nat, listens: bool) | TakeNotify(t: nat) | TakeDone(t: nat) | CheckPopped(t: nat) | Drain(t: nat)
    | Join(t: nat) | Release(t: nat) | Forward(t: nat) | Send(t: nat)
    | Abort(t: nat) | Remove(t: nat) | Finish(t: nat) | Stop(t: nat)

  predicate Enabled(s: System, e: Event) {
    e.Arrive? ||
    (e.t < |s.threads| &&
     var me := s.threads[e.t];
     match e
     case Arrive => true
     case Look(_, _) => me.pc.Arriving?
     case TakeNotify(_) => me.pc.Waiting? && me.token
     case TakeDone(_) => me.pc.Waiting? && me.done
     case CheckPopped(_) => me.pc.Cancelled?
     case Drain(_) => me.pc.Draining? && me.token
     case Join(_) => me.pc.Joining? && me.watcher.Ended?
     case Release(_) => me.pc.Listening?
     case Forward(_) => me.pc.Forwarding?
     case Send(_) => me.pc.Sending? && me.pc.to < |s.threads| && !s.threads[me.pc.to].token
     case Abort(_) => me.watcher.Polling?
     case Remove(_) => me.watcher.Removing?
     case Finish(_) => me.watcher.Finishing?
     case Stop(_) => me.watcher.Polling? && me.done)
  }

  function Put(s: System, t: nat, me: Thread): (s': System)
    requires t < |s.threads|
  {
    s.(threads := s.threads[t := me])
  }

  function After(s: System, e: Event): (s': System)
    requires Enabled(s, e)
  {
    match e
    case Arrive => s.(threads := s.threads + [Thread(Arriving(false), false, false, Ended)])
    case Look(t, listens) =>
      var l := Acquire(s.q, t, listens);
      Put(s.(q := l.q), t,
          match l.result
          case Owner => s.threads[t].(pc := Listening)
          case ListenFailed => s.threads[t].(pc := Forwarding)
          case Queued => Thread(Waiting, false, false, Polling))
    case TakeNotify(t) => Put(s, t, s.threads[t].(pc := Joining, token := false, done := true))
    case TakeDone(t) => Put(s, t, s.threads[t].(pc := Cancelled))
    case CheckPopped(t) => Put(s, t, s.threads[t].(pc := if t in s.q.popped then Draining else Gone))
    case Drain(t) => Put(s, t, s.threads[t].(pc := Forwarding, token := false))
    case Join(t) => Put(s, t, s.threads[t].(pc := Arriving(true)))
    case Release(t) => Put(s.(q := s.q.(listening := false)), t, s.threads[t].(pc := Forwarding))
    case Forward(t) =>
      var f := PopNext(s.q);
      Put(s.(q := f.q), t, s.threads[t].(pc := if f.next.Some? then Sending(f.next.value) else Gone))
    case Send(t) =>
      var to := s.threads[t].pc.to;
      Put(Put(s, t, s.threads[t].(pc := Gone)), to, Put(s, t, s.threads[t].(pc := Gone)).threads[to].(token := true))
    case Abort(t) => Put(s, t, s.threads[t].(watcher := Removing))
    case Remove(t) =>
      Put(s.(q := s.q.(waiters := Without(s.q.waiters, t))), t, s.threads[t].(watcher := Finishing))
    case Finish(t) => Put(s, t, s.threads[t].(watcher := Ended, done := true))
    case Stop(t) => Put(s, t, s.threads[t].(watcher := Ended))
  }

  ghost predicate IsRun(ss: seq<System>, es: seq<Event>) {
    && |ss| == |es| + 1
    && forall k :: 0 <= k < |es| ==> Enabled(ss[k], es[k]) && ss[k + 1] == After(ss[k], es[k])
  }

  // ---- the invariant ------------------------------------------------------

  predicate Selecting(pc: Pc) {
    pc.Waiting? || pc.Cancelled? || pc.Draining?
  }

  /** Someone has popped this waiter and has yet to notify it. */
  ghost predicate BeingNotified(s: System, t: nat) {
    exists k :: 0 <= k < |s.threads| && s.threads[k].pc == Sending(t)
  }

  /** Queued waiters are distinct, in their select, not popped, not notified, not cancelled. */
  ghost predicate QueueSound(s: System) {
    && Distinct(s.q.waiters)
    && (forall t :: t in s.q.waiters ==>
          && t < |s.threads| && t !in s.q.popped
          && s.threads[t].pc.Waiting? && !s.threads[t].token && !s.threads[t].done
          && (s.threads[t].watcher.Polling? || s.threads[t].watcher.Removing?))
  }

  /** A notification goes to a popped waiter that is still selecting and has none yet; no two go to the same one. */
  ghost predicate SendersSound(s: System) {
    && (forall k :: 0 <= k < |s.threads| && s.threads[k].pc.Sending? ==>
          var to := s.threads[k].pc.to;
          to < |s.threads| && to in s.q.popped && !s.threads[to].token && Selecting(s.threads[to].pc))
    && (forall k, l :: 0 <= k < l < |s.threads| && s.threads[k].pc.Sending? ==> s.threads[l].pc != s.threads[k].pc)
    && (forall t :: 0 <= t < |s.threads| && s.threads[t].token ==> t in s.q.popped && Selecting(s.threads[t].pc))
  }

  /** Every popped waiter gets its notification: it is on its way or in the channel, until it is received. */
  ghost predicate TokensSound(s: System) {
    forall t: nat :: t < |s.threads| && Selecting(s.threads[t].pc) && t in s.q.popped ==>
      s.threads[t].token || BeingNotified(s, t)
  }

  /** Where the watcher is, what it has closed; a waiter that is neither queued nor popped is being cancelled. */
  ghost predicate WatchersSound(s: System) {
    forall t: nat :: t < |s.threads| ==>
      var me := s.threads[t];
      && (me.pc.Waiting? || me.pc.Joining? || me.watcher.Ended?)
      && (me.pc.Waiting? && t !in s.q.popped ==> t in s.q.waiters || me.done || me.watcher.Finishing?)
      && (me.pc.Waiting? ==> (me.watcher.Ended? <==> me.done))
      && (me.pc.Joining? || me.pc.Cancelled? ==> me.done)
      && (me.pc.Draining? ==> t in s.q.popped)
  }

  /** The port is held exactly by the thread that listens. */
  ghost predicate OwnerSound(s: System) {
    && (s.q.listening <==> exists t :: 0 <= t < |s.threads| && s.threads[t].pc.Listening?)
    && (forall t, u :: 0 <= t < u < |s.threads| && s.threads[t].pc.Listening? ==> !s.threads[u].pc.Listening?)
  }

  /**
   * A thread that will look at the queue again: one inside forwardBindSlot (after a release, a failed listen or a
   * cancellation), one notified that has not retried, or one popped whether it was cancelled or not. Newcomers do not
   * count.
   */
  ghost predicate Owes(s: System, t: nat) {
    && t < |s.threads|
    && var pc := s.threads[t].pc;
       || pc.Forwarding? || pc.Sending? || pc.Joining? || pc == Arriving(true) || pc.Draining?
       || ((pc.Waiting? || pc.Cancelled?) && t in s.q.popped)
  }

  /** No lost wakeup. */
  ghost predicate WakeupOwed(s: System) {
    !s.q.listening && s.q.waiters != [] ==> exists t: nat :: Owes(s, t)
  }

  ghost predicate Invariant(s: System) {
    QueueSound(s) && SendersSound(s) && TokensSound(s) && WatchersSound(s) && OwnerSound(s) && WakeupOwed(s)
  }
}
