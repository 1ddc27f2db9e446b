/** Every interleaving of the BIND port queue: no lost wakeup, one owner, and progress. */
module BindQueueRuns {
  import opened Bytes
  import opened BindQueue

  // ---- each step keeps the invariant --------------------------------------

  /** Most steps change one thread and leave the queue as it is. */
  predicate Local(e: Event) {
    !e.Arrive? && !e.Look? && !e.Release? && !e.Forward? && !e.Send? && !e.Remove?
  }

  lemma LocalStep(s: System, e: Event)
    requires Enabled(s, e) && Local(e)
    ensures var s' := After(s, e);
      s'.q == s.q && |s'.threads| == |s.threads| && s'.threads == s.threads[e.t := s'.threads[e.t]]
  {
  }

  lemma LocalKeepsQueue(s: System, e: Event)
    requires QueueSound(s) && SendersSound(s) && Enabled(s, e) && Local(e)
    ensures QueueSound(After(s, e))
  {
    LocalStep(s, e);
    var was, me := s.threads[e.t], After(s, e).threads[e.t];
    assert e.t in s.q.waiters ==> me.pc.Waiting? && !me.token && !me.done && (me.watcher.Polling? || me.watcher.Removing?);
    hide After, Enabled, SendersSound;
  }

  lemma KeepsQueue(s: System, e: Event)
    requires QueueSound(s) && SendersSound(s) && Enabled(s, e)
    ensures QueueSound(After(s, e))
  {
    if Local(e) {
      LocalKeepsQueue(s, e);
    } else if e.Remove? {
      WithoutMembers(s.q.waiters, e.t);
    }
  }

  /** Only forwarding makes a sender, and what it pops was queued, so not yet popped. */
  lemma ForwardKeepsSenders(s: System, t: nat)
    requires QueueSound(s) && SendersSound(s) && Enabled(s, Forward(t))
    ensures SendersSound(After(s, Forward(t)))
  {
    if PopNext(s.q).next.Some? {
      assert s.q.waiters[0] in s.q.waiters;
    }
  }

  lemma SendKeepsSenders(s: System, t: nat)
    requires SendersSound(s) && Enabled(s, Send(t))
    ensures SendersSound(After(s, Send(t)))
  {
  }

  lemma LookKeepsSenders(s: System, t: nat, listens: bool)
    requires SendersSound(s) && Enabled(s, Look(t, listens))
    ensures SendersSound(After(s, Look(t, listens)))
  {
  }

  lemma KeepsSenders(s: System, e: Event)
    requires QueueSound(s) && SendersSound(s) && Enabled(s, e)
    ensures SendersSound(After(s, e))
  {
    match e
    case Forward(t) => ForwardKeepsSenders(s, t);
    case Send(t) => SendKeepsSenders(s, t);
    case Look(t, listens) => LookKeepsSenders(s, t, listens);
    case _ => OthersKeepSenders(s, e);
  }

  /** The other steps make no sender, and take away no one's right to be notified before it is. */
  lemma OthersKeepSenders(s: System, e: Event)
    requires SendersSound(s) && Enabled(s, e) && !e.Forward? && !e.Send? && !e.Look?
    ensures SendersSound(After(s, e))
  {
    if !e.Arrive? {
      OnlyOneMoves(s, After(s, e), e.t);
    }
  }

  lemma OnlyOneMoves(s: System, s': System, t: nat)
    requires SendersSound(s) && s'.q.popped == s.q.popped
    requires t < |s.threads| == |s'.threads| && s'.threads == s.threads[t := s'.threads[t]]
    requires var was, me := s.threads[t], s'.threads[t];
      && (me.pc.Sending? ==> me.pc == was.pc)
      && (me.token ==> was.token && Selecting(me.pc))
      && (Selecting(was.pc) && !was.token ==> Selecting(me.pc) || t !in s.q.popped)
    ensures SendersSound(s')
  {
  }

  lemma KeepsTokens(s: System, e: Event)
    requires TokensSound(s) && Enabled(s, e)
    ensures TokensSound(After(s, e))
  {
    if Local(e) {
      LocalKeepsTokens(s, e);
    } else if e.Forward? {
      ForwardKeepsTokens(s, e.t);
    } else {
      var s' := After(s, e);
      forall t: nat | t < |s'.threads| && Selecting(s'.threads[t].pc) && t in s'.q.popped
        ensures s'.threads[t].token || BeingNotified(s', t)
      {
        if !s.threads[t].token {
          assert BeingNotified(s, t);
          var k :| 0 <= k < |s.threads| && s.threads[k].pc == Sending(t);
          assert s'.threads[k].pc == Sending(t) || s'.threads[t].token;
        }
      }
    }
  }

  lemma LocalKeepsTokens(s: System, e: Event)
    requires TokensSound(s) && Enabled(s, e) && Local(e)
    ensures TokensSound(After(s, e))
  {
    LocalStep(s, e);
    var s' := After(s, e);
    var was, me := s.threads[e.t], s'.threads[e.t];
    assert (me.pc.Sending? || was.pc.Sending? ==> me.pc == was.pc)
      && (Selecting(me.pc) ==> me.token == was.token && (Selecting(was.pc) || e.t !in s.q.popped));
    hide After, Enabled;
    forall t: nat | t < |s'.threads| && Selecting(s'.threads[t].pc) && t in s'.q.popped
      ensures s'.threads[t].token || BeingNotified(s', t)
    {
      if !s.threads[t].token {
        var k :| 0 <= k < |s.threads| && s.threads[k].pc == Sending(t);
        assert s'.threads[k].pc == Sending(t);
      }
    }
  }

  lemma ForwardKeepsTokens(s: System, f: nat)
    requires TokensSound(s) && Enabled(s, Forward(f))
    ensures TokensSound(After(s, Forward(f)))
  {
    var s' := After(s, Forward(f));
    forall t: nat | t < |s'.threads| && Selecting(s'.threads[t].pc) && t in s'.q.popped
      ensures s'.threads[t].token || BeingNotified(s', t)
    {
      if PopNext(s.q).next == Some(t) {
        assert s'.threads[f].pc == Sending(t);
      } else if !s.threads[t].token {
        var k :| 0 <= k < |s.threads| && s.threads[k].pc == Sending(t);
        assert s'.threads[k].pc == Sending(t);
      }
    }
  }

  lemma LocalKeepsWatchers(s: System, e: Event)
    requires QueueSound(s) && SendersSound(s) && WatchersSound(s) && Enabled(s, e) && Local(e)
    ensures WatchersSound(After(s, e))
  {
    LocalStep(s, e);
  }

  lemma KeepsWatchers(s: System, e: Event)
    requires QueueSound(s) && SendersSound(s) && WatchersSound(s) && Enabled(s, e)
    ensures WatchersSound(After(s, e))
  {
    if Local(e) {
      LocalKeepsWatchers(s, e);
    } else {
      KeepsQueued(s, e);
      hide Selecting, QueueSound, Without;
    }
  }

  /** A waiter that leaves the queue has been popped, or its watcher has taken it out. */
  lemma KeepsQueued(s: System, e: Event)
    requires QueueSound(s) && Enabled(s, e) && !Local(e)
    ensures var s' := After(s, e);
      forall t :: t in s.q.waiters ==> t in s'.q.waiters || t in s'.q.popped || e == Remove(t)
    ensures e.Look? && s.q.listening ==> e.t in After(s, e).q.waiters
  {
    var s' := After(s, e);
    if e.Remove? {
      WithoutMembers(s.q.waiters, e.t);
    } else if e.Look? && s.q.listening {
      assert s'.q.waiters[|s.q.waiters|] == e.t;
    } else if e.Forward? && PopNext(s.q).next.Some? {
      assert s.q.waiters == [s.q.waiters[0]] + s'.q.waiters;
    }
  }

  lemma LookKeepsOwner(s: System, t: nat, listens: bool)
    requires OwnerSound(s) && Enabled(s, Look(t, listens))
    ensures OwnerSound(After(s, Look(t, listens)))
  {
    var s' := After(s, Look(t, listens));
    assert s'.threads[t].pc.Listening? <==> Acquire(s.q, t, listens).result == Owner;
    if s.q.listening {
      var u :| 0 <= u < |s.threads| && s.threads[u].pc.Listening?;
      assert s'.threads[u].pc.Listening?;
    }
  }

  lemma ReleaseKeepsOwner(s: System, t: nat)
    requires OwnerSound(s) && Enabled(s, Release(t))
    ensures OwnerSound(After(s, Release(t)))
  {
  }

  lemma KeepsOwner(s: System, e: Event)
    requires OwnerSound(s) && Enabled(s, e)
    ensures OwnerSound(After(s, e))
  {
    match e
    case Look(t, listens) => LookKeepsOwner(s, t, listens);
    case Release(t) => ReleaseKeepsOwner(s, t);
    case _ => OthersKeepOwner(s, e);
  }

  lemma OthersKeepOwner(s: System, e: Event)
    requires OwnerSound(s) && Enabled(s, e) && !e.Look? && !e.Release?
    ensures OwnerSound(After(s, e))
  {
    var s' := After(s, e);
    if Local(e) {
      LocalStep(s, e);
    }
    assert s'.q.listening == s.q.listening && |s'.threads| >= |s.threads|;
    SameListeners(s, e);
    hide After, Enabled;
    if s.q.listening {
      var t :| 0 <= t < |s.threads| && s.threads[t].pc.Listening?;
      assert s'.threads[t].pc.Listening?;
    }
  }

  lemma SameListeners(s: System, e: Event)
    requires Enabled(s, e) && !e.Look? && !e.Release?
    ensures forall t :: 0 <= t < |After(s, e).threads| ==>
      (After(s, e).threads[t].pc.Listening? <==> t < |s.threads| && s.threads[t].pc.Listening?)
  {
    if Local(e) {
      LocalStep(s, e);
    }
    hide Without;
  }

  /** Someone who owes goes on owing, or hands the debt on, until the port is taken or nobody waits. */
  lemma KeepsWakeup(s: System, e: Event)
    requires SendersSound(s) && WakeupOwed(s) && Enabled(s, e)
    ensures WakeupOwed(After(s, e))
  {
    var s' := After(s, e);
    if !s'.q.listening && s'.q.waiters != [] {
      match e
      case Look(t, _) => assert Owes(s', t);
      case Release(t) => assert Owes(s', t);
      case Forward(t) => assert Owes(s', t);
      case TakeNotify(t) => assert Owes(s', t);
      case Join(t) => assert Owes(s', t);
      case Drain(t) => assert Owes(s', t);
      case Send(t) => assert Owes(s', s.threads[t].pc.to);
      case _ =>
        assert s.q.waiters != [];
        var u: nat :| Owes(s, u);
        assert Owes(s', u);
    }
  }

  lemma IdleIsSound()
    ensures Invariant(IDLE)
  {
  }

  /** Every state of every run satisfies the invariant. */
  lemma {:induction false} RunKeepsInvariant(ss: seq<System>, es: seq<Event>, k: nat)
    requires IsRun(ss, es) && ss[0] == IDLE && k < |ss|
    ensures Invariant(ss[k])
  {
    hide Enabled, After, Invariant;
    if k == 0 {
      IdleIsSound();
    } else {
      RunKeepsInvariant(ss, es, k - 1);
      StepKeeps(ss[k - 1], es[k - 1]);
    }
  }

  lemma StepKeeps(s: System, e: Event)
    requires Invariant(s) && Enabled(s, e)
    ensures Invariant(After(s, e))
  {
    hide Enabled, After, QueueSound, SendersSound, TokensSound, WatchersSound, OwnerSound, WakeupOwed;
    KeepsQueue(s, e);
    KeepsSenders(s, e);
    KeepsTokens(s, e);
    KeepsWatchers(s, e);
    KeepsOwner(s, e);
    KeepsWakeup(s, e);
  }

  /** At any time of any run the port has at most one owner, and while it has none and someone waits, someone will look. */
  lemma NoLostWakeup(ss: seq<System>, es: seq<Event>, k: nat)
    requires IsRun(ss, es) && ss[0] == IDLE && k < |ss|
    ensures ss[k].q.listening <==> exists t :: 0 <= t < |ss[k].threads| && ss[k].threads[t].pc.Listening?
    ensures forall t, u :: 0 <= t < u < |ss[k].threads| && ss[k].threads[t].pc.Listening? ==> !ss[k].threads[u].pc.Listening?
    ensures !ss[k].q.listening && ss[k].q.waiters != [] ==> exists t: nat :: Owes(ss[k], t)
  {
    hide IsRun, QueueSound, TokensSound, WatchersSound, Owes;
    RunKeepsInvariant(ss, es, k);
  }

  /**
   * A waiter that was cancelled is either out of the queue for good, with no notification on its way, or has been popped
   * and has or gets exactly the one notification it must pass on.
   */
  lemma CancelledIsSettled(ss: seq<System>, es: seq<Event>, k: nat, t: nat)
    requires IsRun(ss, es) && ss[0] == IDLE && k < |ss|
    requires t < |ss[k].threads| && ss[k].threads[t].pc.Cancelled?
    ensures t !in ss[k].q.waiters
    ensures t in ss[k].q.popped <==> ss[k].threads[t].token || BeingNotified(ss[k], t)
    ensures !(ss[k].threads[t].token && BeingNotified(ss[k], t))
  {
    RunKeepsInvariant(ss, es, k);
    hide IsRun, OwnerSound, WakeupOwed, WatchersSound;
  }

  /** Notifying never blocks: a waiter that is to be notified has an empty channel. */
  lemma SendNeverBlocks(ss: seq<System>, es: seq<Event>, k: nat, t: nat)
    requires IsRun(ss, es) && ss[0] == IDLE && k < |ss|
    requires t < |ss[k].threads| && ss[k].threads[t].pc.Sending?
    ensures Enabled(ss[k], Send(t))
  {
    RunKeepsInvariant(ss, es, k);
    hide IsRun, OwnerSound, WakeupOwed, WatchersSound;
  }

  // ---- progress -----------------------------------------------------------

  /** Steps that need nobody outside: no new client, no owner giving up the port, no client going away. */
  predicate Internal(e: Event) {
    !e.Arrive? && !e.Release? && !e.Abort?
  }

  function WatcherWeight(w: Watcher): (n: nat) {
    match w
    case Polling => 3
    case Removing => 2
    case Finishing => 1
    case Ended => 0
  }

  /** How much a thread may still have to do; being popped weighs more than waiting, by less than forwarding weighs. */
  function PcWeight(pc: Pc, popped: bool): (n: nat) {
    match pc
    case Arriving(_) => 40
    case Waiting => if popped then 42 else 30
    case Joining => 41
    case Cancelled => if popped then 22 else 1
    case Draining => 21
    case Forwarding => 20
    case Sending(_) => 1
    case Listening => 0
    case Gone => 0
  }

  function Weight(me: Thread, popped: bool): (n: nat) {
    PcWeight(me.pc, popped) + WatcherWeight(me.watcher)
  }

  /** The work left for threads 0 .. n-1. */
  function Work(s: System, n: nat): (w: nat)
    requires n <= |s.threads|
  {
    if n == 0 then 0 else Work(s, n - 1) + WeightAt(s, n - 1)
  }

  function TotalWork(s: System): (w: nat) {
    Work(s, |s.threads|)
  }

  function WeightAt(s: System, t: nat): (n: nat)
    requires t < |s.threads|
  {
    Weight(s.threads[t], t in s.q.popped)
  }

  /** Work changes by what the threads that change weigh less or more: at most two of them. */
  lemma {:induction false} WorkOfTwo(s: System, s': System, n: nat, t: nat, u: nat)
    requires |s'.threads| == |s.threads| && n <= |s.threads| && t < |s.threads| && u < |s.threads|
    requires forall k: nat :: k < n && k != t && k != u ==> WeightAt(s', k) == WeightAt(s, k)
    ensures Work(s', n) - Work(s, n)
         == (if t < n then WeightAt(s', t) - WeightAt(s, t) else 0)
            + (if u < n && u != t then WeightAt(s', u) - WeightAt(s, u) else 0)
  {
    hide WeightAt;
    if n > 0 {
      WorkOfTwo(s, s', n - 1, t, u);
    }
  }

  /** Every internal step leaves less work, so only finitely many can follow one another. */
  lemma InternalWorks(s: System, e: Event)
    requires QueueSound(s) && SendersSound(s) && TokensSound(s) && WatchersSound(s)
    requires Enabled(s, e) && Internal(e)
    ensures TotalWork(After(s, e)) < TotalWork(s)
  {
    hide Work, BeingNotified;
    if Local(e) {
      LocalWorks(s, e);
    } else {
      var s' := After(s, e);
      var u := if e.Send? then s.threads[e.t].pc.to
               else if e.Forward? && PopNext(s.q).next.Some? then PopNext(s.q).next.value else e.t;
      WorkOfTwo(s, s', |s.threads|, e.t, u);
    }
  }

  lemma LocalWorks(s: System, e: Event)
    requires QueueSound(s) && SendersSound(s) && TokensSound(s) && WatchersSound(s)
    requires Enabled(s, e) && Internal(e) && Local(e)
    ensures TotalWork(After(s, e)) < TotalWork(s)
  {
    hide Work, BeingNotified;
    LocalStep(s, e);
    var s' := After(s, e);
    assert WeightAt(s', e.t) < WeightAt(s, e.t);
    hide After, Enabled, QueueSound, SendersSound, TokensSound, WatchersSound;
    WorkOfTwo(s, s', |s.threads|, e.t, e.t);
  }

  ghost predicate InternalRun(ss: seq<System>, es: seq<Event>) {
    IsRun(ss, es) && forall k :: 0 <= k < |es| ==> Internal(es[k])
  }

  lemma {:induction false} InternalRunsEnd(ss: seq<System>, es: seq<Event>)
    requires InternalRun(ss, es) && Invariant(ss[0])
    ensures Invariant(ss[|es|]) && |es| + TotalWork(ss[|es|]) <= TotalWork(ss[0])
    decreases |es|
  {
    hide Enabled, After, TotalWork, Internal, QueueSound, SendersSound, TokensSound, WatchersSound, OwnerSound, WakeupOwed;
    if es != [] {
      var n := |es| - 1;
      assert ss[..|es|][n] == ss[n];
      InternalRunsEnd(ss[..|es|], es[..n]);
      StepKeeps(ss[n], es[n]);
      InternalWorks(ss[n], es[n]);
    }
  }

  /** Where no internal step is possible the queue is served: the port is held, or nobody waits for it. */
  lemma QuietIsServed(s: System)
    requires Invariant(s) && forall e :: Internal(e) ==> !Enabled(s, e)
    ensures s.q.listening || s.q.waiters == []
  {
    hide OwnerSound;
    if !s.q.listening && s.q.waiters != [] {
      var t: nat :| Owes(s, t);
      OwerCanStep(s, t);
    }
  }

  /** The debt can always be worked off: if not by the thread that owes, by its watcher or by the one notifying it. */
  lemma OwerCanStep(s: System, t: nat)
    requires SendersSound(s) && TokensSound(s) && WatchersSound(s) && Owes(s, t)
    ensures exists e :: Internal(e) && Enabled(s, e)
  {
    var me := s.threads[t];
    if me.pc.Forwarding? {
      assert Enabled(s, Forward(t));
    } else if me.pc.Sending? {
      assert Enabled(s, Send(t));
    } else if me.pc.Arriving? {
      assert Enabled(s, Look(t, true));
    } else if me.pc.Cancelled? {
      assert Enabled(s, CheckPopped(t));
    } else if me.pc.Joining? {
      assert Enabled(s, Join(t)) || Enabled(s, Stop(t)) || Enabled(s, Remove(t)) || Enabled(s, Finish(t));
    } else if me.token {
      assert Enabled(s, TakeNotify(t)) || Enabled(s, Drain(t));
    } else {
      var k :| 0 <= k < |s.threads| && s.threads[k].pc == Sending(t);
      assert Enabled(s, Send(k));
    }
  }

  /**
   * Progress: left alone from any reachable state, the threads stop after finitely many steps whatever the schedule, and
   * where they stop the port is held or nobody waits for it.
   */
  lemma SlotIsServed(ss: seq<System>, es: seq<Event>, k: nat, more: seq<System>, steps: seq<Event>)
    requires IsRun(ss, es) && ss[0] == IDLE && k < |ss|
    requires InternalRun(more, steps) && more[0] == ss[k]
    ensures |steps| <= TotalWork(ss[k])
    ensures (forall e :: Internal(e) ==> !Enabled(more[|steps|], e)) ==>
      more[|steps|].q.listening || more[|steps|].q.waiters == []
  {
    hide Invariant, Enabled, After, TotalWork, Internal;
    RunKeepsInvariant(ss, es, k);
    InternalRunsEnd(more, steps);
    if forall e :: Internal(e) ==> !Enabled(more[|steps|], e) {
      QuietIsServed(more[|steps|]);
    }
  }
}
