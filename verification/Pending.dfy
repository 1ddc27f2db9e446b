/** Datagrams held back until the ClientHello is complete, then flushed in packet-number order: quicInitialPending. */
module Pending {
  import opened Bytes
  import opened Multisets
  import opened Reassembly
  import opened ClientHello
  import opened Packet
  import opened Collector

  /** quicPendingBytes. */
  const PENDING_BYTES: nat := 256 * 1024

  /** quicPendingTimeout, in nanoseconds. */
  const PENDING_TIMEOUT: nat := 5_000_000_000

  datatype PendingPacket = PendingPacket(pn: nat, data: bytes)

  /** `updated` is None before the first datagram, where the source has the zero time. */
  datatype PendingState = PendingState(
    collector: CollectorState, packets: seq<PendingPacket>, size: nat, updated: Option<int>)

  const NO_DATAGRAMS: PendingState := PendingState(NEW, [], 0, None)

  datatype PendingResult = PendingResult(state: PendingState, sni: Option<bytes>)

  /** A refused datagram is not held back, but its trace in the collector stays. */
  function AddPending(c: Crypto, st: PendingState, data: bytes, now: int): (r: PendingResult)
    requires Sound(st.collector.buffer)
    ensures Sound(r.state.collector.buffer)
  {
    var a := AddDatagram(c, st.collector, data);
    match a.found
    case None => PendingResult(st.(collector := a.state), None)
    case Some(h) =>
      PendingResult(PendingState(a.state, st.packets + [PendingPacket(h.lowestPN, data)], st.size + |data|, Some(now)),
                    Some(h.sni))
  }

  predicate IsExpired(st: PendingState, now: int) {
    st.updated.Some? && now - st.updated.value > PENDING_TIMEOUT
  }

  // ---- the flush order ----------------------------------------------------

  /** Before the first packet with a larger number. */
  function Insert(sorted: seq<PendingPacket>, p: PendingPacket): (r: seq<PendingPacket>)
  {
    if sorted == [] || p.pn < sorted[0].pn then [p] + sorted else [sorted[0]] + Insert(sorted[1..], p)
  }

  /** sort.SliceStable by packet number. */
  function SortByPN(ps: seq<PendingPacket>): (r: seq<PendingPacket>)
  {
    if ps == [] then [] else Insert(SortByPN(ps[..|ps| - 1]), ps[|ps| - 1])
  }

  function Payloads(ps: seq<PendingPacket>): (ds: seq<bytes>)
    ensures |ds| == |ps|
  {
    seq(|ps|, i requires 0 <= i < |ps| => ps[i].data)
  }

  /** The packets of one number, in the order they are in. */
  ghost function OfNumber(ps: seq<PendingPacket>, n: nat): (r: seq<PendingPacket>)
  {
    if ps == [] then [] else (if ps[0].pn == n then [ps[0]] else []) + OfNumber(ps[1..], n)
  }

  ghost predicate Ascending(ps: seq<PendingPacket>) {
    forall i, j :: 0 <= i < j < |ps| ==> ps[i].pn <= ps[j].pn
  }

  /** What a stable sort promises: ascending, and packets of one number keep their order. */
  ghost predicate StablySorted(ps: seq<PendingPacket>, sorted: seq<PendingPacket>) {
    Ascending(sorted) && forall n: nat :: OfNumber(sorted, n) == OfNumber(ps, n)
  }

  lemma {:induction false} OfNumberAppend(a: seq<PendingPacket>, b: seq<PendingPacket>, n: nat)
    ensures OfNumber(a + b, n) == OfNumber(a, n) + OfNumber(b, n)
  {
    if a == [] {
      assert a + b == b;
    } else {
      assert (a + b)[1..] == a[1..] + b && (a + b)[0] == a[0];
      OfNumberAppend(a[1..], b, n);
      var one := if a[0].pn == n then [a[0]] else [];
      assert one + (OfNumber(a[1..], n) + OfNumber(b, n)) == one + OfNumber(a[1..], n) + OfNumber(b, n);
    }
  }

  lemma {:induction false} NoneAbove(ps: seq<PendingPacket>, n: nat)
    requires forall i :: 0 <= i < |ps| ==> ps[i].pn > n
    ensures OfNumber(ps, n) == []
  {
    if ps != [] {
      NoneAbove(ps[1..], n);
    }
  }

  lemma {:induction false} InsertAscending(sorted: seq<PendingPacket>, p: PendingPacket)
    requires Ascending(sorted)
    ensures Ascending(Insert(sorted, p))
  {
    if sorted == [] || p.pn < sorted[0].pn {
      Precede(p, sorted);
    } else {
      InsertAscending(sorted[1..], p);
      InsertMembers(sorted[1..], p);
      Precede(sorted[0], Insert(sorted[1..], p));
    }
  }

  lemma Precede(p: PendingPacket, ps: seq<PendingPacket>)
    requires Ascending(ps) && forall q :: q in ps ==> p.pn <= q.pn
    ensures Ascending([p] + ps)
  {
    var all := [p] + ps;
    forall i, j | 0 <= i < j < |all|
      ensures all[i].pn <= all[j].pn
    {
      assert all[j] == ps[j - 1];
    }
  }

  lemma {:induction false} InsertKeepsNumber(sorted: seq<PendingPacket>, p: PendingPacket, n: nat)
    requires Ascending(sorted)
    ensures OfNumber(Insert(sorted, p), n) == OfNumber(sorted, n) + OfNumber([p], n)
  {
    if sorted == [] || p.pn < sorted[0].pn {
      OfNumberAppend([p], sorted, n);
      if n == p.pn {
        NoneAbove(sorted, n);
      }
    } else {
      InsertKeepsNumber(sorted[1..], p, n);
      var more := Insert(sorted[1..], p);
      assert ([sorted[0]] + more)[1..] == more;
    }
  }

  lemma {:induction false} InsertKeepsAll(sorted: seq<PendingPacket>, p: PendingPacket)
    ensures multiset(Insert(sorted, p)) == multiset(sorted) + multiset{p}
  {
    if sorted != [] && p.pn >= sorted[0].pn {
      InsertKeepsAll(sorted[1..], p);
      assert sorted == [sorted[0]] + sorted[1..];
    }
  }

  lemma {:induction false} InsertMembers(sorted: seq<PendingPacket>, p: PendingPacket)
    ensures forall q :: q in Insert(sorted, p) ==> q == p || q in sorted
  {
    if sorted != [] && p.pn >= sorted[0].pn {
      InsertMembers(sorted[1..], p);
    }
  }

  /** The packets come out in ascending order, those of one number in the order they came, none lost and none twice. */
  lemma {:induction false} SortIsStable(ps: seq<PendingPacket>)
    ensures StablySorted(ps, SortByPN(ps)) && multiset(SortByPN(ps)) == multiset(ps)
  {
    if ps != [] {
      var init, last := ps[..|ps| - 1], ps[|ps| - 1];
      assert ps == init + [last];
      SortIsStable(init);
      forall n: nat
        ensures OfNumber(SortByPN(ps), n) == OfNumber(ps, n)
      {
        InsertKeepsNumber(SortByPN(init), last, n);
        OfNumberAppend(init, [last], n);
      }
      InsertAscending(SortByPN(init), last);
      InsertKeepsAll(SortByPN(init), last);
    }
  }

  /** Any stable sort gives this very order. */
  lemma {:induction false} StableSortUnique(ps: seq<PendingPacket>, a: seq<PendingPacket>, b: seq<PendingPacket>)
    requires StablySorted(ps, a) && StablySorted(ps, b)
    ensures a == b
    decreases |a|
  {
    SameHead(a, b);
    if a != [] {
      TailsSorted(a, b);
      StableSortUnique(a[1..], a[1..], b[1..]);
    }
  }

  /** The first of an ascending sequence is at or below every number that occurs in it. */
  lemma {:induction false} FirstIsLowest(a: seq<PendingPacket>, n: nat)
    requires Ascending(a) && OfNumber(a, n) != []
    ensures a != [] && a[0].pn <= n
  {
    if a != [] && a[0].pn > n {
      NoneAbove(a, n);
    }
  }

  lemma SameHead(a: seq<PendingPacket>, b: seq<PendingPacket>)
    requires Ascending(a) && Ascending(b) && forall n: nat :: OfNumber(a, n) == OfNumber(b, n)
    ensures a == [] <==> b == []
    ensures a != [] && b != [] ==> a[0].pn == b[0].pn
  {
    if a != [] {
      FirstIsLowest(b, a[0].pn);
    }
    if b != [] {
      FirstIsLowest(a, b[0].pn);
    }
  }

  lemma TailsSorted(a: seq<PendingPacket>, b: seq<PendingPacket>)
    requires a != [] && b != [] && a[0].pn == b[0].pn
    requires Ascending(a) && Ascending(b) && forall n: nat :: OfNumber(a, n) == OfNumber(b, n)
    ensures a[0] == b[0]
    ensures Ascending(a[1..]) && Ascending(b[1..]) && forall n: nat :: OfNumber(a[1..], n) == OfNumber(b[1..], n)
  {
    assert OfNumber(a, a[0].pn)[0] == a[0] && OfNumber(b, a[0].pn)[0] == b[0];
    forall n: nat
      ensures OfNumber(a[1..], n) == OfNumber(b[1..], n)
    {
      TailOfNumber(a, n);
      TailOfNumber(b, n);
    }
  }

  lemma TailOfNumber(a: seq<PendingPacket>, n: nat)
    requires a != []
    ensures OfNumber(a[1..], n) == if a[0].pn == n then OfNumber(a, n)[1..] else OfNumber(a, n)
  {
  }

  /** Packets of different numbers are flushed in the same order, whatever the order they came in. */
  lemma FlushOrder(ps: seq<PendingPacket>, qs: seq<PendingPacket>)
    requires multiset(ps) == multiset(qs)
    requires forall i, j :: 0 <= i < j < |ps| ==> ps[i].pn != ps[j].pn
    ensures SortByPN(ps) == SortByPN(qs)
  {
    SortIsStable(ps);
    SortIsStable(qs);
    var a, b := SortByPN(ps), SortByPN(qs);
    DistinctMembers(ps, a);
    SameAscending(a, b);
  }

  lemma DistinctMembers(ps: seq<PendingPacket>, a: seq<PendingPacket>)
    requires multiset(a) == multiset(ps)
    requires forall i, j :: 0 <= i < j < |ps| ==> ps[i].pn != ps[j].pn
    ensures forall p, q :: p in a && q in a && p.pn == q.pn ==> p == q
  {
    forall p, q | p in a && q in a && p.pn == q.pn
      ensures p == q
    {
      assert p in multiset(ps) && q in multiset(ps);
    }
  }

  lemma {:induction false} SameAscending(a: seq<PendingPacket>, b: seq<PendingPacket>)
    requires Ascending(a) && Ascending(b) && multiset(a) == multiset(b)
    requires forall p, q :: p in a && q in a && p.pn == q.pn ==> p == q
    ensures a == b
    decreases |a|
  {
    SameMembers(a, b);
    if a != [] {
      assert a[0] in b && b[0] in a;
      assert a[0].pn <= b[0].pn <= a[0].pn;
      SameTails(a, b);
      SameAscending(a[1..], b[1..]);
    }
  }

  // ---- accumulating -------------------------------------------------------

  datatype Outcome = Failure | Waiting | Ready(datagrams: seq<bytes>)

  datatype AccumulateResult = AccumulateResult(state: PendingState, outcome: Outcome)

  predicate HelloReady(st: PendingState)
    requires Sound(st.collector.buffer)
  {
    ClientHelloComplete(ContiguousStream(st.collector.buffer))
  }

  function Accumulated(c: Crypto, st: PendingState, data: bytes, now: int): (r: AccumulateResult)
    requires Sound(st.collector.buffer)
    ensures Sound(r.state.collector.buffer)
  {
    var a := AddPending(c, st, data, now);
    AccumulateResult(a.state,
      if a.sni.None? || a.state.size > PENDING_BYTES then Failure
      else if !HelloReady(a.state) then Waiting
      else Ready(Payloads(SortByPN(a.state.packets))))
  }

  /** The datagrams accepted so far are held back in order of arrival, and `size` is their size. */
  ghost predicate Holds(st: PendingState, arrived: seq<bytes>) {
    && Sound(st.collector.buffer)
    && Payloads(st.packets) == arrived && st.size == TotalSize(arrived)
    && (st.updated.Some? <==> arrived != [])
  }

  lemma AddHolds(c: Crypto, st: PendingState, arrived: seq<bytes>, data: bytes, now: int)
    requires Holds(st, arrived)
    ensures var r := AddPending(c, st, data, now);
      Holds(r.state, if r.sni.Some? then arrived + [data] else arrived)
  {
    hide AddDatagram;
    var r := AddPending(c, st, data, now);
    if r.sni.Some? {
      assert Payloads(r.state.packets) == Payloads(st.packets) + [data];
      TotalSizeAppend(arrived, [data]);
    }
  }

  /** Datagrams accumulated one after the other, for as long as the outcome is to wait. */
  function AccumulateAll(c: Crypto, ds: seq<bytes>, nows: seq<int>): (r: AccumulateResult)
    requires |ds| == |nows|
    ensures Sound(r.state.collector.buffer)
    decreases |ds|
  {
    if ds == [] then AccumulateResult(NO_DATAGRAMS, Waiting)
    else
      var k := |ds| - 1;
      var before := AccumulateAll(c, ds[..k], nows[..k]);
      if before.outcome == Waiting then Accumulated(c, before.state, ds[k], nows[k]) else before
  }

  lemma FlushedAll(ps: seq<PendingPacket>)
    ensures multiset(Payloads(SortByPN(ps))) == multiset(Payloads(ps))
  {
    hide SortByPN;
    SortIsStable(ps);
    var sorted := SortByPN(ps);
    SameImages((p: PendingPacket) => p.data, sorted, ps, Payloads(sorted), Payloads(ps));
  }

  /** The first k datagrams, all of them and no more, flushed in the order of their numbers. */
  ghost predicate FlushedAt(r: AccumulateResult, ds: seq<bytes>, k: nat) {
    && 0 < k <= |ds| && r.outcome.Ready?
    && Holds(r.state, ds[..k]) && TotalSize(ds[..k]) <= PENDING_BYTES && HelloReady(r.state)
    && r.outcome.datagrams == Payloads(SortByPN(r.state.packets))
    && multiset(r.outcome.datagrams) == multiset(ds[..k])
  }

  lemma AccumulateStep(c: Crypto, st: PendingState, ds: seq<bytes>, now: int)
    requires ds != [] && Holds(st, ds[..|ds| - 1])
    ensures var r := Accumulated(c, st, ds[|ds| - 1], now);
      && (r.outcome.Waiting? ==> Holds(r.state, ds) && r.state.size <= PENDING_BYTES)
      && (r.outcome.Ready? ==> FlushedAt(r, ds, |ds|))
  {
    hide AddPending, HelloReady, SortByPN, TotalSize;
    var init, data := ds[..|ds| - 1], ds[|ds| - 1];
    AddHolds(c, st, init, data, now);
    assert ds == init + [data] == ds[..|ds|];
    FlushedAll(AddPending(c, st, data, now).state.packets);
  }

  /**
   * What comes of one more datagram: failure exactly if the collector refuses it or more than 256 KiB are held with it;
   * waiting exactly if not, and the stream shows no complete ClientHello; and otherwise the flush, of everything held.
   */
  lemma AccumulatedExactly(c: Crypto, st: PendingState, data: bytes, now: int)
    requires Holds(st, Payloads(st.packets))
    ensures var heard := AddDatagram(c, st.collector, data);
      var r := Accumulated(c, st, data, now);
      var failed := heard.found.None? || TotalSize(Payloads(st.packets)) + |data| > 262144;
      var ready := ClientHelloComplete(ContiguousStream(heard.state.buffer));
      && (r.outcome.Failure? <==> failed)
      && (r.outcome.Waiting? <==> !failed && !ready)
      && (r.outcome.Ready? <==> !failed && ready)
      && (heard.found.Some? ==> Payloads(r.state.packets) == Payloads(st.packets) + [data] && r.state.updated == Some(now))
      && (heard.found.None? ==> r.state == st.(collector := heard.state))
      && (r.outcome.Ready? ==> multiset(r.outcome.datagrams) == multiset(Payloads(st.packets) + [data]))
  {
    hide AddDatagram, ClientHelloComplete, ContiguousStream, SortByPN, TotalSize;
    AddHolds(c, st, Payloads(st.packets), data, now);
    var a := AddPending(c, st, data, now);
    if a.sni.Some? {
      assert Payloads(a.state.packets) == Payloads(st.packets) + [data];
      FlushedAll(a.state.packets);
      SizeSnoc(Payloads(st.packets), data);
    }
  }

  lemma SizeSnoc(ds: seq<bytes>, data: bytes)
    ensures TotalSize(ds + [data]) == TotalSize(ds) + |data|
  {
    TotalSizeAppend(ds, [data]);
    assert [data][1..] == [];
  }

  /**
   * Conservation: while waiting, every datagram so far is held; and once the ClientHello is complete all of them are
   * flushed, none twice, in packet-number order and at most 256 KiB.
   */
  lemma {:induction false} AccumulateExact(c: Crypto, ds: seq<bytes>, nows: seq<int>)
    requires |ds| == |nows|
    ensures var r := AccumulateAll(c, ds, nows);
      && (r.outcome.Waiting? ==> Holds(r.state, ds) && r.state.size <= PENDING_BYTES)
      && (r.outcome.Ready? ==> exists k :: FlushedAt(r, ds, k))
    decreases |ds|
  {
    hide Accumulated, Holds, FlushedAt;
    if ds == [] {
      NothingHeld();
    } else {
      var n := |ds| - 1;
      var before := AccumulateAll(c, ds[..n], nows[..n]);
      AccumulateExact(c, ds[..n], nows[..n]);
      if before.outcome == Waiting {
        AccumulateStep(c, before.state, ds, nows[n]);
      } else if before.outcome.Ready? {
        var k :| FlushedAt(before, ds[..n], k);
        FlushedBefore(before, ds, n, k);
      }
    }
  }

  lemma NothingHeld()
    ensures Holds(NO_DATAGRAMS, [])
  {
  }

  lemma FlushedBefore(r: AccumulateResult, ds: seq<bytes>, n: nat, k: nat)
    requires n <= |ds| && FlushedAt(r, ds[..n], k)
    ensures FlushedAt(r, ds, k)
  {
    hide Holds, SortByPN, TotalSize, HelloReady;
    assert ds[..n][..k] == ds[..k];
  }

  // ---- the object ---------------------------------------------------------

  class QuicInitialPending {
    const collector: QuicInitialCollector
    var packets: seq<PendingPacket>
    var size: nat
    var updated: Option<int>

    function State(): (st: PendingState)
      reads this, collector
    {
      PendingState(collector.State(), packets, size, updated)
    }

    ghost predicate Valid()
      reads this, collector
    {
      collector.Valid()
    }

    constructor (c: Crypto)
      ensures Valid() && fresh(collector) && collector.crypto == c && State() == NO_DATAGRAMS
    {
      collector := new QuicInitialCollector(c);
      packets, size, updated := [], 0, None;
    }

    /** Only an accepted datagram is kept, counted, and starts the clock again. */
    method Add(data: bytes, now: int) returns (sni: Option<bytes>)
      requires Valid()
      modifies this, collector
      ensures Valid()
      ensures sni.None? ==> packets == old(packets) && size == old(size) && updated == old(updated)
      ensures sni.Some? ==> updated == Some(now) && size == old(size) + |data|
      ensures sni.Some? ==> Payloads(packets) == old(Payloads(packets)) + [data]
      ensures PendingResult(State(), sni) == AddPending(collector.crypto, old(State()), data, now)
    {
      var found := collector.Add(data);
      if found.None? {
        return None;
      }
      packets := packets + [PendingPacket(found.value.lowestPN, data)];
      size := size + |data|;
      updated := Some(now);
      return Some(found.value.sni);
    }

    method Datagrams() returns (datagrams: seq<bytes>)
      ensures datagrams == Payloads(SortByPN(packets))
    {
      var sorted := SortByPN(packets);
      datagrams := [];
      for i := 0 to |sorted|
        invariant datagrams == Payloads(sorted)[..i]
      {
        datagrams := datagrams + [sorted[i].data];
      }
    }

    method ClientHelloReady() returns (ready: bool)
      requires Valid()
      ensures ready == HelloReady(State())
    {
      var stream := ContiguousCryptoStream(Buffer(collector.stream, collector.covered));
      return ClientHelloComplete(stream);
    }

    method Accumulate(data: bytes, now: int) returns (outcome: Outcome)
      requires Valid()
      modifies this, collector
      ensures Valid()
      ensures AccumulateResult(State(), outcome) == Accumulated(collector.crypto, old(State()), data, now)
    {
      hide AddPending, ClientHelloComplete, SortByPN;
      var sni := Add(data, now);
      if sni.None? || size > PENDING_BYTES {
        return Failure;
      }
      var ready := ClientHelloReady();
      if !ready {
        return Waiting;
      }
      var datagrams := Datagrams();
      return Ready(datagrams);
    }
  }
}
