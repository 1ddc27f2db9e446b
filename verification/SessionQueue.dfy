/** The byte-bounded queue of one session: enqueue under the session's lock, the consumer beside it, in any interleaving. */
module SessionQueue {
  import opened Bytes

  /** tproxyUDPMaxPending, the capacity of the channel. */
  const CAPACITY: nat := 32

  /** tproxyUDPMaxPendingSize. */
  const MAX_SIZE: nat := 256 * 1024

  // ---- the session, one call at a time ------------------------------------

  /** What the session's own methods see when nobody interferes; `dones` counts the closings of the done channel. */
  class TproxyUDPSession {
    var closed: bool
    var dones: nat
    var queuedSize: nat
    var upstream: seq<bytes>

    ghost predicate Valid()
      reads this
    {
      && queuedSize == TotalSize(upstream) <= MAX_SIZE && |upstream| <= CAPACITY
      && dones == if closed then 1 else 0
    }

    constructor ()
      ensures Valid() && !closed && upstream == []
    {
      closed, dones, queuedSize, upstream := false, 0, 0, [];
    }

    method Enqueue(packet: bytes) returns (ok: bool)
      requires Valid()
      modifies this
      ensures Valid()
      ensures ok <==> !old(closed) && TotalSize(old(upstream)) + |packet| <= MAX_SIZE && |old(upstream)| < CAPACITY
      ensures upstream == if ok then old(upstream) + [packet] else old(upstream)
      ensures closed == old(closed)
    {
      if closed || queuedSize + |packet| > MAX_SIZE {
        return false;
      }
      if |upstream| < CAPACITY {
        TotalSizeAppend(upstream, [packet]);
        upstream := upstream + [packet];
        queuedSize := queuedSize + |packet|;
        return true;
      }
      return false;
    }

    /**
     * flushUpstream: everything queued is written, in order, up to the first packet whose write, or whose deadline after
     * the write, fails; `healthy` packets go through before that. The packet that fails is off the queue and counted off.
     */
    method FlushUpstream(healthy: nat, failsInWrite: bool) returns (written: seq<bytes>, ok: bool)
      requires Valid()
      modifies this
      ensures Valid() && closed == old(closed)
      ensures ok <==> |old(upstream)| <= healthy
      ensures ok ==> written == old(upstream) && upstream == [] && queuedSize == 0
      ensures !ok ==> upstream == old(upstream)[healthy + 1..]
      ensures !ok ==> written == old(upstream)[..if failsInWrite then healthy else healthy + 1]
    {
      written := [];
      while |upstream| > 0
        invariant Valid() && closed == old(closed) && |written| <= healthy
        invariant written + upstream == old(upstream)
        decreases |upstream|
      {
        var packet := upstream[0];
        ghost var was := written + upstream;
        upstream := upstream[1..];
        queuedSize := queuedSize - |packet|;
        assert was == written + [packet] + upstream;
        if |written| == healthy && failsInWrite {
          return written, false;
        }
        written := written + [packet];
        if |written| > healthy {
          return written, false;
        }
      }
      return written, true;
    }

    method Close() returns (first: bool)
      requires Valid()
      modifies this
      ensures Valid() && closed && first == !old(closed)
      ensures upstream == old(upstream)
    {
      if closed {
        return false;
      }
      closed := true;
      dones := dones + 1;
      return true;
    }
  }

  // ---- every interleaving -------------------------------------------------

  /** The session's lock: free, or held by an enqueue before or after its send. */
  datatype Lock = Free | Admitted(packet: bytes) | Sent(packet: bytes)

  /** `taken` is the packet the consumer has received but not yet subtracted; `accepted` and `handed` are the history. */
  datatype State = State(
    lock: Lock, closed: bool, queuedSize: int, upstream: seq<bytes>, taken: Option<bytes>,
    accepted: seq<bytes>, handed: seq<bytes>)

  const FRESH: State := State(Free, false, 0, [], None, [], [])

  /**
   * Enqueue in three steps: Admit checks the bounds, Offer sends if the channel has room, Count adds the size and
   * unlocks. The consumer in two: Take receives without the lock, Subtract needs it.
   */
  datatype Event = Admit(packet: bytes) | Offer | Count | Take | Subtract | Close

  predicate Enabled(s: State, e: Event) {
    match e
    case Admit(_) => s.lock.Free?
    case Offer => s.lock.Admitted?
    case Count => s.lock.Sent?
    case Take => s.upstream != [] && s.taken.None?
    case Subtract => s.lock.Free? && s.taken.Some?
    case Close => s.lock.Free?
  }

  function After(s: State, e: Event): (s': State)
    requires Enabled(s, e)
  {
    match e
    case Admit(packet) =>
      if s.closed || s.queuedSize + |packet| > MAX_SIZE then s else s.(lock := Admitted(packet))
    case Offer =>
      var packet := s.lock.packet;
      if |s.upstream| < CAPACITY
      then s.(lock := Sent(packet), upstream := s.upstream + [packet], accepted := s.accepted + [packet])
      else s.(lock := Free)
    case Count => s.(lock := Free, queuedSize := s.queuedSize + |s.lock.packet|)
    case Take => s.(upstream := s.upstream[1..], taken := Some(s.upstream[0]))
    case Subtract =>
      s.(queuedSize := s.queuedSize - |s.taken.value|, taken := None, handed := s.handed + [s.taken.value])
    case Close => s.(closed := true)
  }

  ghost predicate IsRun(ss: seq<State>, es: seq<Event>) {
    && |ss| == |es| + 1 && ss[0] == FRESH
    && forall k :: 0 <= k < |es| ==> Enabled(ss[k], es[k]) && ss[k + 1] == After(ss[k], es[k])
  }

  function InHand(s: State): (ps: seq<bytes>) {
    if s.taken.Some? then [s.taken.value] else []
  }

  /** The bytes in the channel and in the consumer's hand. */
  function Outstanding(s: State): (n: nat) {
    TotalSize(s.upstream) + (if s.taken.Some? then |s.taken.value| else 0)
  }

  ghost predicate Invariant(s: State) {
    && Outstanding(s) == s.queuedSize + (if s.lock.Sent? then |s.lock.packet| else 0)
    && Outstanding(s) <= MAX_SIZE && s.queuedSize >= 0 && |s.upstream| <= CAPACITY
    && (s.lock.Admitted? ==> s.queuedSize + |s.lock.packet| <= MAX_SIZE)
    && (!s.lock.Free? ==> !s.closed)
    && s.accepted == s.handed + InHand(s) + s.upstream
  }

  lemma StepKeeps(s: State, e: Event)
    requires Invariant(s) && Enabled(s, e)
    ensures Invariant(After(s, e))
  {
    hide TotalSize;
    match e
    case Offer => OfferKeeps(s);
    case Take => TakeKeeps(s);
    case Subtract => SubtractKeeps(s);
    case _ =>
  }

  lemma OfferKeeps(s: State)
    requires Invariant(s) && Enabled(s, Offer)
    ensures Invariant(After(s, Offer))
  {
    TotalSizeAppend(s.upstream, [s.lock.packet]);
    assert TotalSize([s.lock.packet]) == |s.lock.packet| + TotalSize([]);
    hide TotalSize;
    assert s.handed + InHand(s) + (s.upstream + [s.lock.packet]) == s.handed + InHand(s) + s.upstream + [s.lock.packet];
  }

  lemma TakeKeeps(s: State)
    requires Invariant(s) && Enabled(s, Take)
    ensures Invariant(After(s, Take))
  {
    assert TotalSize(s.upstream) == |s.upstream[0]| + TotalSize(s.upstream[1..]);
    hide TotalSize;
    assert s.upstream == [s.upstream[0]] + s.upstream[1..];
    assert s.handed + [] + ([s.upstream[0]] + s.upstream[1..]) == s.handed + [s.upstream[0]] + s.upstream[1..];
  }

  lemma SubtractKeeps(s: State)
    requires Invariant(s) && Enabled(s, Subtract)
    ensures Invariant(After(s, Subtract))
  {
    hide TotalSize;
    assert s.handed + [s.taken.value] + [] == s.handed + [s.taken.value];
  }

  lemma {:induction false} RunKeepsInvariant(ss: seq<State>, es: seq<Event>, k: nat)
    requires IsRun(ss, es) && k < |ss|
    ensures Invariant(ss[k])
  {
    hide Enabled, After;
    if k > 0 {
      RunKeepsInvariant(ss, es, k - 1);
      StepKeeps(ss[k - 1], es[k - 1]);
    }
  }

  /**
   * The accounting, in every interleaving: with the lock free the counter is exactly the bytes in the channel plus those
   * received and not yet subtracted; it never goes negative, and neither it nor those bytes ever exceed the limit. Packets
   * leave in the order they were accepted, none lost and none twice.
   */
  lemma AccountingExact(ss: seq<State>, es: seq<Event>, k: nat)
    requires IsRun(ss, es) && k < |ss|
    ensures ss[k].lock.Free? ==> ss[k].queuedSize == Outstanding(ss[k])
    ensures 0 <= ss[k].queuedSize <= MAX_SIZE && Outstanding(ss[k]) <= MAX_SIZE && |ss[k].upstream| <= CAPACITY
    ensures ss[k].accepted == ss[k].handed + InHand(ss[k]) + ss[k].upstream
  {
    hide IsRun;
    RunKeepsInvariant(ss, es, k);
  }

  /**
   * The three steps of an enqueue on a free lock: the packet is admitted exactly if the session is open and the bytes in
   * the channel and in the consumer's hand leave room for it, sent exactly if fewer than 32 packets are in the channel, and
   * then it is the last of the channel and counted; otherwise nothing has changed.
   */
  lemma EnqueueSteps(s: State, packet: bytes)
    requires Invariant(s) && s.lock.Free?
    ensures var admitted := After(s, Admit(packet));
      && (admitted.lock == Admitted(packet) <==> !s.closed && Outstanding(s) + |packet| <= 262144)
      && (admitted.lock == Admitted(packet) || admitted == s)
      && (admitted.lock == Admitted(packet) ==> (
            var sent := After(admitted, Offer);
            && (sent.lock == Sent(packet) <==> |s.upstream| < 32)
            && (sent.lock == Sent(packet) || sent == s)
            && (sent.lock == Sent(packet) ==>
                  After(sent, Count)
                  == s.(upstream := s.upstream + [packet], accepted := s.accepted + [packet], queuedSize := Outstanding(s) + |packet|))))
  {
    hide TotalSize;
  }

  /** The two steps of the consumer: the oldest packet leaves the channel and is counted off. */
  lemma ConsumerSteps(s: State)
    requires Invariant(s) && s.lock.Free? && s.taken.None? && s.upstream != []
    ensures Enabled(s, Take) && Enabled(After(s, Take), Subtract)
    ensures var done := After(After(s, Take), Subtract);
      && [s.upstream[0]] + done.upstream == s.upstream && done.handed == s.handed + [s.upstream[0]]
      && done.accepted == s.accepted && done.closed == s.closed
      && done.queuedSize == TotalSize(done.upstream)
  {
  }

  /** A closed session accepts nothing more. */
  lemma {:induction false} ClosedIsFinal(ss: seq<State>, es: seq<Event>, k: nat, l: nat)
    requires IsRun(ss, es) && k <= l < |ss| && ss[k].closed
    ensures ss[l].closed && ss[l].accepted == ss[k].accepted
    decreases l
  {
    if k < l {
      ClosedIsFinal(ss, es, k, l - 1);
      RunKeepsInvariant(ss, es, l - 1);
      ClosedStep(ss[l - 1], es[l - 1]);
    }
  }

  lemma ClosedStep(s: State, e: Event)
    requires Invariant(s) && Enabled(s, e) && s.closed
    ensures After(s, e).closed && After(s, e).accepted == s.accepted
  {
  }
}
