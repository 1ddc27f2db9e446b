/** A receiver that discards repeated packet numbers (section 12.3 of RFC 9000), over whole runs. */
module Discarding {
  import opened Multisets
  import opened Reassembly
  import opened Splitting
  import opened Packet
  import opened Datagram
  import opened Rewriter
  import opened RewriterSteps
  import opened Run
  import opened Coalesced
  import opened AckSafety
  import opened RunReassembly

  // ---- the receiver -------------------------------------------------------

  /** Of each packet number the first content that arrives is kept. */
  function Kept(cs: seq<Content>, seen: set<nat>): (kept: seq<Content>)
  {
    if cs == [] then []
    else if cs[0].pn in seen then Kept(cs[1..], seen)
    else [cs[0]] + Kept(cs[1..], seen + {cs[0].pn})
  }

  ghost predicate Unique<T>(s: seq<T>) {
    forall a, b :: 0 <= a < b < |s| ==> s[a] != s[b]
  }

  /** Whoever has the same number is the same packet. */
  ghost predicate OneEach(cs: seq<Content>) {
    forall r, r' :: r in cs && r' in cs && r.pn == r'.pn ==> r == r'
  }

  lemma {:induction false} KeptExact(cs: seq<Content>, seen: set<nat>)
    requires OneEach(cs)
    ensures Unique(Kept(cs, seen))
    ensures forall r :: r in Kept(cs, seen) <==> r in cs && r.pn !in seen
  {
    if cs != [] {
      var r, rest := cs[0], cs[1..];
      assert cs == [r] + rest;
      if r.pn in seen {
        KeptExact(rest, seen);
      } else {
        KeptExact(rest, seen + {r.pn});
        var kept := Kept(rest, seen + {r.pn});
        assert r !in kept;
        UniqueCons(r, kept);
      }
    }
  }

  lemma UniqueCons<T>(x: T, s: seq<T>)
    requires Unique(s) && x !in s
    ensures Unique([x] + s)
  {
    var t := [x] + s;
    forall a, b | 0 <= a < b < |t|
      ensures t[a] != t[b]
    {
      assert t[b] == s[b - 1];
    }
  }

  /** Two lists without repetition and with the same members are permutations. */
  lemma UniqueSame<T>(a: seq<T>, b: seq<T>)
    requires Unique(a) && Unique(b) && forall x :: x in a <==> x in b
    ensures multiset(a) == multiset(b)
  {
    forall x
      ensures multiset(a)[x] == multiset(b)[x]
    {
      CountsOne(a, x);
      CountsOne(b, x);
    }
  }

  lemma {:induction false} CountsOne<T>(s: seq<T>, x: T)
    requires Unique(s)
    ensures multiset(s)[x] == if x in s then 1 else 0
  {
    if s != [] {
      assert forall a, b :: 0 <= a < b < |s[1..]| ==> s[1..][a] == s[a + 1] && s[1..][b] == s[b + 1];
      CountsOne(s[1..], x);
      HeadOut(s);
      assert s == [s[0]] + s[1..];
      assert s[0] !in s[1..];
    }
  }

  // ---- the numbers of a run, in order -------------------------------------

  ghost function OwnLog(more: seq<Content>): (log: seq<(nat, nat)>)
    ensures |log| == |more|
  {
    seq(|more|, k requires 0 <= k < |more| => (more[k].pn, more[k].pn))
  }

  /** Client number and wire number of every packet sent for an event. */
  ghost function EventLog(st: RewriterState, e: Event): (log: seq<(nat, nat)>) {
    match e
    case ClientInitial(_, i, more) => (if 1 <= i.pnLen <= 4 then EmitLog(st, i) else []) + OwnLog(more)
    case ClientPassed(_, more) => OwnLog(more)
    case _ => []
  }

  ghost function EmitLog(st: RewriterState, i: InitialDatagram): (log: seq<(nat, nat)>)
    requires 1 <= i.pnLen <= 4
  {
    seq(|Emits(st, i)|, k requires 0 <= k < |Emits(st, i)| => (i.pn, Emits(st, i)[k].pn))
  }

  ghost function Log(ws: seq<World>, es: seq<Event>, k: nat): (log: seq<(nat, nat)>)
    requires |ws| == |es| + 1 && k <= |es|
  {
    if k == 0 then [] else Log(ws, es, k - 1) + EventLog(ws[k - 1].rw, es[k - 1])
  }

  /** The numbers the client gave its packets, in the order it sent them. */
  ghost function GivenIn(e: Event): (ns: seq<nat>) {
    match e
    case ClientInitial(_, i, more) => [i.pn] + PnsOf(more)
    case ClientPassed(_, more) => PnsOf(more)
    case _ => []
  }

  ghost function PnsOf(more: seq<Content>): (ns: seq<nat>)
    ensures |ns| == |more|
  {
    seq(|more|, k requires 0 <= k < |more| => more[k].pn)
  }

  ghost function Given(es: seq<Event>, k: nat): (ns: seq<nat>)
    requires k <= |es|
  {
    if k == 0 then [] else Given(es, k - 1) + GivenIn(es[k - 1])
  }

  lemma OwnLogMembers(more: seq<Content>)
    ensures forall p :: p in OwnLog(more) <==> p in OwnPairs(more)
    ensures forall n, m :: (n, m) in OwnLog(more) ==> n in PnsOf(more) && m == n
  {
    forall p | p in OwnPairs(more)
      ensures p in OwnLog(more)
    {
      var r :| r in more && p == (r.pn, r.pn);
      var k :| 0 <= k < |more| && more[k] == r;
      assert OwnLog(more)[k] == p;
    }
    forall n, m | (n, m) in OwnLog(more)
      ensures (n, m) in OwnPairs(more) && n in PnsOf(more) && m == n
    {
      var k :| 0 <= k < |more| && OwnLog(more)[k] == (n, m);
      assert more[k] in more && PnsOf(more)[k] == n;
    }
  }

  lemma EmitLogMembers(st: RewriterState, i: InitialDatagram)
    requires 1 <= i.pnLen <= 4
    ensures forall p :: p in EmitLog(st, i) <==> p in Numbers(st, i)
    ensures forall n, m :: (n, m) in EmitLog(st, i) ==> n == i.pn
  {
    hide Emits;
    forall p | p in Numbers(st, i)
      ensures p in EmitLog(st, i)
    {
      var k :| 0 <= k < |Emits(st, i)| && p == (i.pn, Emits(st, i)[k].pn);
      assert EmitLog(st, i)[k] == p;
    }
  }

  /** The log is the numbering, and its client numbers are those the client gave. */
  lemma {:induction false} LogIsNumbering(c: Crypto, ws: seq<World>, es: seq<Event>, k: nat)
    requires IsRun(c, ws, es) && k <= |es|
    ensures forall p :: p in Log(ws, es, k) <==> p in ws[k].numbering
    ensures forall n, m :: (n, m) in Log(ws, es, k) ==> n in Given(es, k)
  {
    hide Next, EventLog, GivenIn;
    if k > 0 {
      LogIsNumbering(c, ws, es, k - 1);
      EventLogged(c, ws[k - 1], es[k - 1], ws[k]);
    }
  }

  lemma EventLogged(c: Crypto, w: World, e: Event, w': World)
    requires Next(c, w, e, w')
    ensures forall p :: p in w'.numbering <==> p in w.numbering || p in EventLog(w.rw, e)
    ensures forall n, m :: (n, m) in EventLog(w.rw, e) ==> n in GivenIn(e)
  {
    hide ClientStep, ServerStep, Emits, Contain, InitialsIn, ServerReadable, Opens, LocateQUICInitial, Numbers, OwnPairs, OwnLog,
      EmitLog, PnsOf;
    match e
    case ClientInitial(data, i, more) =>
      SendsParts(c, w, data, i);
      EmitLogMembers(w.rw, i);
      OwnLogMembers(more);
    case ClientPassed(_, more) => OwnLogMembers(more);
    case _ =>
  }

  /** A client that gives no number twice makes no pair twice. */
  lemma {:induction false} LogIsUnique(c: Crypto, ws: seq<World>, es: seq<Event>, k: nat)
    requires IsRun(c, ws, es) && k <= |es| && Unique(Given(es, k))
    ensures Unique(Log(ws, es, k))
  {
    hide Next, EventLog, GivenIn;
    if k > 0 {
      var before, now := Given(es, k - 1), GivenIn(es[k - 1]);
      UniqueParts(before, now);
      LogIsUnique(c, ws, es, k - 1);
      LogIsNumbering(c, ws, es, k - 1);
      EventLogged(c, ws[k - 1], es[k - 1], ws[k]);
      EventLogUnique(c, ws[k - 1], es[k - 1], ws[k]);
      var a, b := Log(ws, es, k - 1), EventLog(ws[k - 1].rw, es[k - 1]);
      forall x | x in a
        ensures x !in b
      {
        assert (x.0, x.1) in a ==> x.0 in before;
        assert (x.0, x.1) in b ==> x.0 in now;
      }
      UniqueJoin(a, b);
    }
  }

  lemma UniqueParts<T>(a: seq<T>, b: seq<T>)
    requires Unique(a + b)
    ensures Unique(a) && Unique(b) && forall x :: x in a ==> x !in b
  {
    var s := a + b;
    assert forall i :: 0 <= i < |a| ==> s[i] == a[i];
    assert forall i :: 0 <= i < |b| ==> s[|a| + i] == b[i];
  }

  lemma UniqueJoin<T>(a: seq<T>, b: seq<T>)
    requires Unique(a) && Unique(b) && forall x :: x in a ==> x !in b
    ensures Unique(a + b)
  {
    var s := a + b;
    forall i, j | 0 <= i < j < |s|
      ensures s[i] != s[j]
    {
      if i < |a| <= j {
        assert s[i] in a && s[j] in b;
      }
    }
  }

  lemma EventLogUnique(c: Crypto, w: World, e: Event, w': World)
    requires Next(c, w, e, w') && Unique(GivenIn(e))
    ensures Unique(EventLog(w.rw, e))
  {
    hide ClientStep, ServerStep, Emits, Contain, InitialsIn, ServerReadable, Opens, LocateQUICInitial, OwnLog, EmitLog, PnsOf,
      AfterInitial;
    match e
    case ClientInitial(data, i, more) =>
      SendsParts(c, w, data, i);
      UniqueParts([i.pn], PnsOf(more));
      assert i.pn in [i.pn];
      EmitLogUnique(w.rw, i);
      OwnLogUnique(more);
      EmitLogMembers(w.rw, i);
      OwnLogMembers(more);
      var a, b := EmitLog(w.rw, i), OwnLog(more);
      forall x | x in a
        ensures x !in b
      {
        assert (x.0, x.1) in a && ((x.0, x.1) in b ==> x.0 in PnsOf(more));
      }
      UniqueJoin(a, b);
    case ClientPassed(_, more) => OwnLogUnique(more);
    case _ =>
  }

  lemma OwnLogUnique(more: seq<Content>)
    requires Unique(PnsOf(more))
    ensures Unique(OwnLog(more))
  {
    forall a, b | 0 <= a < b < |more|
      ensures OwnLog(more)[a] != OwnLog(more)[b]
    {
      assert PnsOf(more)[a] != PnsOf(more)[b];
    }
  }

  lemma EmitLogUnique(st: RewriterState, i: InitialDatagram)
    requires 1 <= i.pnLen <= 4
    ensures Unique(EmitLog(st, i))
  {
    hide SplitInitialCryptoFrames, SecondPNLen;
  }

  // ---- the numbers a receiver sees ----------------------------------------

  lemma {:induction false} GotNumbers(c: Crypto, ws: seq<World>, es: seq<Event>, got: seq<seq<Content>>, k: nat)
    requires Lawful(c) && IsRun(c, ws, es) && RunRead(c, ws, es, got) && k <= |es|
    ensures |AllGot(got, k)| == |Log(ws, es, k)|
    ensures forall j :: 0 <= j < |AllGot(got, k)| ==> AllGot(got, k)[j].pn == Log(ws, es, k)[j].1
  {
    hide Next, EventLog, EventRead;
    if k > 0 {
      GotNumbers(c, ws, es, got, k - 1);
      EventNumbers(c, ws[k - 1], es[k - 1], ws[k], got[k - 1]);
    }
  }

  lemma EventNumbers(c: Crypto, w: World, e: Event, w': World, got: seq<Content>)
    requires Lawful(c) && Next(c, w, e, w') && EventRead(c, w, e, got)
    ensures |got| == |EventLog(w.rw, e)|
    ensures forall j :: 0 <= j < |got| ==> got[j].pn == EventLog(w.rw, e)[j].1
  {
    hide ClientStep, ServerStep, Emits, Contain, InitialsIn, ServerReadable, Opens, LocateQUICInitial, EventRead, AfterInitial,
      ClientSends, IsPaddedTo, Passes;
    match e
    case ClientInitial(data, i, more) =>
      InitialDelivered(c, w, data, i, more, got);
      var n := |Emits(w.rw, i)|;
      forall j | 0 <= j < |got|
        ensures got[j].pn == EventLog(w.rw, e)[j].1
      {
        if j < n {
          PaddedNumber(ContentOf(Emits(w.rw, i)[j]), got[j]);
        } else {
          assert got[n..][j - n] == got[j];
        }
      }
    case ClientPassed(data, more) => PassedDelivered(c, w, data, more, got);
    case _ => NothingGot(c, w, e, got);
  }

  lemma PaddedNumber(t: Content, a: Content)
    requires IsPaddedTo(t, a)
    ensures a.pn == t.pn
  {
  }

  /** No two packets in the list have one number. */
  ghost predicate NoneRepeated(cs: seq<Content>) {
    Unique(PnsOf(cs))
  }

  /**
   * Exactly when a receiver discards nothing: for a client that gives no number twice, no two of the packets sent in a run
   * bear the same number if and only if none went out untouched right after one that was read and shifted.
   */
  lemma NothingDiscardedExactly(c: Crypto, ws: seq<World>, es: seq<Event>, got: seq<seq<Content>>, k: nat)
    requires Lawful(c) && IsRun(c, ws, es) && RunRead(c, ws, es, got) && k <= |es| && Unique(Given(es, k))
    ensures |got| == |es|
    ensures NoneRepeated(AllGot(got, k)) <==> !Overlaps(ws[k])
  {
    hide RunRead, IsRun, Overlaps, Unambiguous;
    GotEach(c, ws, es, got);
    RunLength(c, ws, es);
    LogIsUnique(c, ws, es, k);
    LogIsNumbering(c, ws, es, k);
    GotNumbers(c, ws, es, got, k);
    NumberingIsInvertible(c, ws, es, k);
    WireUnique(ws[k], Log(ws, es, k), AllGot(got, k));
  }

  lemma RunLength(c: Crypto, ws: seq<World>, es: seq<Event>)
    requires IsRun(c, ws, es)
    ensures |ws| == |es| + 1
  {
  }

  lemma WireUnique(w: World, log: seq<(nat, nat)>, cs: seq<Content>)
    requires Unique(log) && (forall p :: p in log <==> p in w.numbering)
    requires |cs| == |log| && forall j :: 0 <= j < |cs| ==> cs[j].pn == log[j].1
    ensures NoneRepeated(cs) <==> Unambiguous(w)
  {
    if NoneRepeated(cs) {
      forall n, n', m | (n, m) in w.numbering && (n', m) in w.numbering
        ensures n == n'
      {
        var a :| 0 <= a < |log| && log[a] == (n, m);
        var b :| 0 <= b < |log| && log[b] == (n', m);
        assert PnsOf(cs)[a] == PnsOf(cs)[b];
      }
    }
    if Unambiguous(w) {
      forall a, b | 0 <= a < b < |cs|
        ensures PnsOf(cs)[a] != PnsOf(cs)[b]
      {
        assert log[a] in w.numbering && log[b] in w.numbering;
        assert (log[a].0, log[a].1) == log[a] && (log[b].0, log[b].1) == log[b];
      }
    }
  }

  lemma NoneRepeatedIsOneEach(cs: seq<Content>)
    requires NoneRepeated(cs)
    ensures Unique(cs) && OneEach(cs)
  {
    var ns := PnsOf(cs);
    forall a, b | 0 <= a < b < |cs|
      ensures cs[a] != cs[b]
    {
      assert ns[a] != ns[b];
    }
    forall r, r' | r in cs && r' in cs && r.pn == r'.pn
      ensures r == r'
    {
      var a :| 0 <= a < |cs| && cs[a] == r;
      var b :| 0 <= b < |cs| && cs[b] == r';
      assert ns[a] == ns[b];
    }
  }

  /**
   * The handshake reaches a receiver that discards repeated numbers. At any point of any run that does not overlap, with
   * closed client payloads and a client that gives no number twice: let the packets sent arrive in any order and any
   * number of times each. What the receiver keeps is each of them once, and reassembles exactly if the client's own
   * payloads do, to the same stream with the same coverage.
   */
  lemma DiscardingReassembles(c: Crypto, ws: seq<World>, es: seq<Event>, got: seq<seq<Content>>, k: nat, arrived: seq<Content>)
    requires Lawful(c) && IsRun(c, ws, es) && ClosedClient(es) && RunRead(c, ws, es, got) && k <= |es| == |got|
    requires Unique(Given(es, k)) && !Overlaps(ws[k])
    requires forall r :: r in arrived <==> r in AllGot(got, k)
    ensures multiset(Kept(arrived, {})) == multiset(AllGot(got, k))
    ensures SameReassembly(PayloadsOf(Kept(arrived, {})), ClientPayloads(es, k))
  {
    hide RunRead, IsRun, Overlaps, ClosedClient, MergeAll;
    NothingDiscardedExactly(c, ws, es, got, k);
    NoneRepeatedIsOneEach(AllGot(got, k));
    KeptExact(arrived, {});
    UniqueSame(Kept(arrived, {}), AllGot(got, k));
    SameImages((r: Content) => r.plaintext, Kept(arrived, {}), AllGot(got, k), PayloadsOf(Kept(arrived, {})),
               PayloadsOf(AllGot(got, k)));
    RunReassembles(c, ws, es, got, k, PayloadsOf(Kept(arrived, {})));
  }
}
