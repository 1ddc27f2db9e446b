/** Answers that are packed, sent and read back without filters: BuildResponse and GetAnswers undo each other. */
module DnsRoundTrip {
  import opened Bytes
  import opened ClientHello
  import opened DnsQuestion
  import opened DnsAnswers
  import opened DnsReading

  // ---- the response -------------------------------------------------------

  /** PackAnswers. */
  function PackAnswers(r: Records, qtype: nat, now: int, minTtl: nat): (p: Packed)
    requires Addresses(AddressesOf(r.ipv4)) && Addresses(AddressesOf(r.ipv6)) && minTtl < 0x1_0000_0000
  {
    if qtype == TYPE_A && r.ipv4.Some? then
      Packed(|r.ipv4.value.addresses|, AnswersOf(r.ipv4.value.addresses, TimeToLive(r.ipv4.value.expires, now, minTtl)))
    else if qtype == TYPE_AAAA && r.ipv6.Some? then
      Packed(|r.ipv6.value.addresses|, AnswersOf(r.ipv6.value.addresses, TimeToLive(r.ipv6.value.expires, now, minTtl)))
    else if qtype == TYPE_HTTPS then PackSvc(r, minTtl)
    else Packed(0, [])
  }

  /** The SOA record of an empty answer, around its two times to live. */
  const SOA: bytes := [0x00, 0x40] + SOA_DATA

  const SOA_DATA: bytes := [
    0x01, 0x61, 0x0c, 0x72, 0x6f, 0x6f, 0x74, 0x2d, 0x73, 0x65, 0x72, 0x76, 0x65, 0x72, 0x73, 0x03, 0x6e, 0x65,
    0x74, 0x00, 0x05, 0x6e, 0x73, 0x74, 0x6c, 0x64, 0x0c, 0x76, 0x65, 0x72, 0x69, 0x73, 0x69, 0x67, 0x6e, 0x2d, 0x67, 0x72,
    0x73, 0x03, 0x63, 0x6f, 0x6d, 0x00, 0x78, 0xa4, 0x92, 0x64, 0x00, 0x00, 0x07, 0x08, 0x00, 0x00, 0x03, 0x84, 0x00, 0x09,
    0x3a, 0x80]

  function BuildNodata(request: bytes, minTtl: nat): (d: bytes)
    requires |request| >= 12
  {
    request[..2] + [0x81, 0x80] + request[4..8] + [0x00, 0x01] + request[10..]
    + [0x00, 0x00, 0x06, 0x00, 0x01] + ToBE(minTtl, 4) + SOA + ToBE(minTtl, 4)
  }

  /** BuildResponse, for records without a fake address. */
  function BuildResponse(r: Records, request: bytes, qtype: nat, now: int, minTtl: nat): (d: bytes)
    requires Addresses(AddressesOf(r.ipv4)) && Addresses(AddressesOf(r.ipv6)) && minTtl < 0x1_0000_0000
    requires |request| >= 12
  {
    var p := PackAnswers(r, qtype, now, minTtl);
    if p.count == 0 then BuildNodata(request, minTtl)
    else request[..2] + [0x81, 0x80] + request[4..6] + ToBE(p.count, 2) + request[8..] + p.answers
  }

  /** A request with one question, whose name ends where GetNameOffset says, and no answer. */
  ghost predicate OneQuestion(request: bytes) {
    && |request| >= 12 && U16(request, 4) == 1 && U16(request, 6) == 0
    && NameEnd(request, 12) > 0 && NameEnd(request, 12) + 4 == |request|
  }

  // ---- one record ---------------------------------------------------------

  lemma TwoDigits(n: nat)
    requires n < 0x1_0000
    ensures ToBE(n, 2) == [n / 256, n % 256]
  {
    assert ToBE(n, 2) == [n / 256 % 256, n % 256];
  }

  lemma U16At(d: bytes, at: nat, n: nat)
    requires at + 2 <= |d| && n < 0x1_0000 && d[at..at + 2] == ToBE(n, 2)
    ensures U16(d, at) == n
  {
    TwoDigits(n);
    assert d[at] == d[at..at + 2][0] && d[at + 1] == d[at..at + 2][1];
  }

  lemma TtlRead(ttl: nat)
    requires ttl < 0x1_0000_0000
    ensures BE(ToBE(ttl, 4)) == ttl
  {
    BERoundTrip(ttl, 4);
    assert Pow256(4) == 0x1_0000_0000;
  }

  /** The fixed fields of a packed record, read at its place. */
  lemma HeadRead(pre: bytes, rtype: byte, ttl: nat, length: nat, more: bytes)
    requires ttl < 0x1_0000_0000 && length < 0x1_0000
    ensures ReadFields(pre + RecordHead(rtype, ttl, length) + more, |pre|)
         == Some(Fields(rtype as nat, ttl, length, |pre| + 12))
  {
    hide BE, ToBE;
    var t, l := ToBE(ttl, 4), ToBE(length, 2);
    var d := pre + RecordHead(rtype, ttl, length) + more;
    var at := |pre| + 2;
    assert d[|pre|] == 0xc0;
    assert NameEnd(d, |pre|) == at;
    assert d[at] == 0 && d[at + 1] == rtype;
    assert d[at + 4..at + 8] == t;
    assert d[at + 8..at + 10] == l;
    U16At(d, at + 8, length);
    TtlRead(ttl);
  }

  // ---- addresses ----------------------------------------------------------

  /** The addresses that are packed as A records, as four bytes. */
  function V4s(ips: seq<bytes>): (r: seq<bytes>) {
    if ips == [] then []
    else (match To4(ips[0]) case Some(ip4) => [ip4] case None => []) + V4s(ips[1..])
  }

  /** Those that are packed as AAAA records. */
  function V6s(ips: seq<bytes>): (r: seq<bytes>) {
    if ips == [] then [] else (if To4(ips[0]).None? then [ips[0]] else []) + V6s(ips[1..])
  }

  function WithAddresses(h: Option<Hint>, ips: seq<bytes>, expires: int): (h': Option<Hint>) {
    if ips == [] then h
    else if h.None? then Some(Hint(expires, ips))
    else Some(Hint(h.value.expires, h.value.addresses + ips))
  }

  function Later(ttl: nat, now: int, minTtl: nat): (expires: int) {
    (if ttl < minTtl then minTtl else ttl) + now
  }

  /** Without options every address is taken as it is. */
  lemma Unfiltered(ip: bytes)
    ensures NO_FILTER(ip) == Some(ip)
    ensures To4(ip).Some? ==> FilteredA(NO_FILTER, To4(ip).value) == To4(ip)
  {
    if To4(ip).Some? {
      var ip4 := To4(ip).value;
      assert (MAPPED_PREFIX + ip4)[..12] == MAPPED_PREFIX && (MAPPED_PREFIX + ip4)[12..] == ip4;
    }
  }

  lemma OneAnswerRead(pre: bytes, ip: bytes, ttl: nat, more: bytes, n: nat, r: Records, now: int, minTtl: nat)
    requires Address(ip) && ttl < 0x1_0000_0000
    ensures var d := pre + AnswerOf(ip, ttl) + more;
      ReadAnswers(d, |pre|, n + 1, r, now, minTtl, NO_FILTER)
      == ReadAnswers(d, |pre| + |AnswerOf(ip, ttl)|, n, WithOne(r, ip, Later(ttl, now, minTtl)), now, minTtl, NO_FILTER)
  {
    hide RecordHead, ReadFields, WithAddress;
    Unfiltered(ip);
    var ip4 := To4(ip);
    var head := if ip4.Some? then RecordHead(1, ttl, 4) else RecordHead(28, ttl, 16);
    var address := if ip4.Some? then ip4.value else ip;
    var d := pre + AnswerOf(ip, ttl) + more;
    assert d == pre + head + (address + more);
    HeadRead(pre, if ip4.Some? then 1 else 28, ttl, if ip4.Some? then 4 else 16, address + more);
    assert d[|pre| + 12..|pre| + 12 + |address|] == address;
  }

  function WithOne(r: Records, ip: bytes, expires: int): (r': Records) {
    match To4(ip)
    case Some(ip4) => r.(ipv4 := WithAddress(r.ipv4, ip4, expires))
    case None => r.(ipv6 := WithAddress(r.ipv6, ip, expires))
  }

  function WithAll(r: Records, ips: seq<bytes>, expires: int): (r': Records) {
    r.(ipv4 := WithAddresses(r.ipv4, V4s(ips), expires), ipv6 := WithAddresses(r.ipv6, V6s(ips), expires))
  }

  lemma OneThenRest(r: Records, ips: seq<bytes>, expires: int)
    requires ips != []
    ensures WithAll(WithOne(r, ips[0], expires), ips[1..], expires) == WithAll(r, ips, expires)
  {
    var ip, rest := ips[0], ips[1..];
    match To4(ip) {
      case Some(ip4) => HintGrows(r.ipv4, ip4, V4s(rest), expires);
        assert [] + V6s(rest) == V6s(rest);
      case None => HintGrows(r.ipv6, ip, V6s(rest), expires);
        assert [] + V4s(rest) == V4s(rest);
    }
  }

  lemma HintGrows(h: Option<Hint>, ip: bytes, more: seq<bytes>, expires: int)
    ensures WithAddresses(WithAddress(h, ip, expires), more, expires) == WithAddresses(h, [ip] + more, expires)
  {
    if h.Some? {
      assert h.value.addresses + [ip] + more == h.value.addresses + ([ip] + more);
    }
    assert more == [] ==> [ip] + more == [ip];
  }

  /** A list of packed addresses is read back into the two lists, each in order. */
  lemma {:induction false} AnswersRead(pre: bytes, ips: seq<bytes>, ttl: nat, r: Records, now: int, minTtl: nat)
    requires Addresses(ips) && ttl < 0x1_0000_0000
    ensures ReadAnswers(pre + AnswersOf(ips, ttl), |pre|, |ips|, r, now, minTtl, NO_FILTER) == Some(WithAll(r, ips, Later(ttl, now, minTtl)))
    decreases |ips|
  {
    hide AnswerOf, AnswersOf, ReadAnswers, Later, WithOne, WithAll;
    var expires := Later(ttl, now, minTtl);
    if ips == [] {
      NothingRead(pre + AnswersOf(ips, ttl), |pre|, r, now, minTtl, expires);
    } else {
      AnswersStep(ips, ttl, 0);
      assert ips[0..] == ips;
      var one, more := AnswerOf(ips[0], ttl), AnswersOf(ips[1..], ttl);
      OneAnswerRead(pre, ips[0], ttl, more, |ips| - 1, r, now, minTtl);
      assert pre + AnswersOf(ips, ttl) == pre + one + more;
      AnswersRead(pre + one, ips[1..], ttl, WithOne(r, ips[0], expires), now, minTtl);
      OneThenRest(r, ips, expires);
    }
  }

  lemma NothingRead(d: bytes, off: nat, r: Records, now: int, minTtl: nat, expires: int)
    ensures ReadAnswers(d, off, 0, r, now, minTtl, NO_FILTER) == Some(r) && WithAll(r, [], expires) == r
  {
  }

  // ---- the header of the response -----------------------------------------

  /** A name ends at the same place when more follows and nothing before its end has changed. */
  lemma {:induction false} NameEndLocal(d: bytes, d': bytes, off: nat)
    requires NameEnd(d, off) > 0 && |d| <= |d'| && off <= |d| && d[off..] == d'[off..|d|]
    ensures NameEnd(d', off) == NameEnd(d, off)
    decreases |d| - off
  {
    assert d[off] == d[off..][0] == d'[off];
    var next := off + 1 + d[off] as int;
    if 0 < d[off] < 63 {
      assert d[next..] == d[off..][next - off..] == d'[next..|d|];
      NameEndLocal(d, d', next);
    }
  }

  /** What the response has in place of the request's header. */
  function Answered(request: bytes, count: nat): (pre: bytes)
    requires |request| >= 12
    ensures |pre| == |request|
  {
    request[..2] + [0x81, 0x80] + request[4..6] + ToBE(count, 2) + request[8..]
  }

  lemma HeaderRead(request: bytes, count: nat, answers: bytes)
    requires OneQuestion(request) && count < 0x1_0000
    ensures var d := Answered(request, count) + answers;
      && U16(d, 4) == 1 && U16(d, 6) == count && QuestionsEnd(d, 12, 1) == Some(|request|)
  {
    hide ToBE;
    var digits := ToBE(count, 2);
    var d := Answered(request, count) + answers;
    assert d[4] == request[4] && d[5] == request[5];
    assert d[6..8] == digits;
    U16At(d, 6, count);
    assert request[12..] == d[12..|request|];
    NameEndLocal(request, d, 12);
    assert QuestionsEnd(d, 12, 1) == QuestionsEnd(d, NameEnd(d, 12) + 4, 0);
  }

  /** A response with answers, read from the first of them. */
  lemma ResponseRead(request: bytes, count: nat, answers: bytes, r: Records, now: int, minTtl: nat)
    requires OneQuestion(request) && 0 < count < 0x1_0000
    ensures GetAnswers(Answered(request, count) + answers, r, now, minTtl, NO_FILTER)
         == ReadAnswers(Answered(request, count) + answers, |request|, count, r, now, minTtl, NO_FILTER)
  {
    hide ReadAnswers, Answered, QuestionsEnd;
    HeaderRead(request, count, answers);
  }

  /** A response without answers leaves the records alone. */
  lemma NodataRead(request: bytes, ttl: nat, r: Records, now: int, minTtl: nat)
    requires OneQuestion(request)
    ensures GetAnswers(BuildNodata(request, ttl), r, now, minTtl, NO_FILTER) == Some(r)
  {
    hide ToBE, QuestionsEnd, ReadAnswers;
    var d := BuildNodata(request, ttl);
    assert d[6] == request[6] && d[7] == request[7];
  }

  // ---- address answers ----------------------------------------------------

  /** The list a question of this type asks for. */
  function Asked(r: Records, qtype: nat): (h: Option<Hint>) {
    if qtype == TYPE_A then r.ipv4 else if qtype == TYPE_AAAA then r.ipv6 else None
  }

  /**
   * Address lists survive the trip: what is read from the response is the list, in order, each address under its own
   * family, with the time to live counted from the moment of reading.
   */
  lemma AddressesReturn(r: Records, request: bytes, qtype: nat, now: int, minTtl: nat, later: int, floor: nat)
    requires OneQuestion(request) && minTtl < 0x1_0000_0000
    requires Addresses(AddressesOf(r.ipv4)) && Addresses(AddressesOf(r.ipv6))
    requires Asked(r, qtype).Some? && |Asked(r, qtype).value.addresses| < 0x1_0000
    ensures var h := Asked(r, qtype).value;
      GetAnswers(BuildResponse(r, request, qtype, now, minTtl), NO_RECORDS, later, floor, NO_FILTER)
      == Some(WithAll(NO_RECORDS, h.addresses, Later(TimeToLive(h.expires, now, minTtl), later, floor)))
  {
    hide AnswersOf, ReadAnswers, TimeToLive, Later, GetAnswers, BuildNodata, WithAll, Answered;
    var h := Asked(r, qtype).value;
    var ttl := TimeToLive(h.expires, now, minTtl);
    var count := |h.addresses|;
    if count == 0 {
      NodataRead(request, minTtl, NO_RECORDS, later, floor);
      NothingRead([], 0, NO_RECORDS, later, floor, Later(ttl, later, floor));
    } else {
      var pre := Answered(request, count);
      ResponseRead(request, count, AnswersOf(h.addresses, ttl), NO_RECORDS, later, floor);
      AnswersRead(pre, h.addresses, ttl, NO_RECORDS, later, floor);
      assert BuildResponse(r, request, qtype, now, minTtl) == pre + AnswersOf(h.addresses, ttl) by {
        ResponseShape(r, request, qtype, now, minTtl);
      }
    }
  }

  lemma ResponseShape(r: Records, request: bytes, qtype: nat, now: int, minTtl: nat)
    requires Addresses(AddressesOf(r.ipv4)) && Addresses(AddressesOf(r.ipv6)) && minTtl < 0x1_0000_0000
    requires |request| >= 12 && PackAnswers(r, qtype, now, minTtl).count > 0
    ensures BuildResponse(r, request, qtype, now, minTtl)
         == Answered(request, PackAnswers(r, qtype, now, minTtl).count) + PackAnswers(r, qtype, now, minTtl).answers
  {
    hide PackAnswers;
  }

  lemma {:induction false} V6sExact(ips: seq<bytes>)
    ensures V6s(ips) == ips <==> forall k :: 0 <= k < |ips| ==> To4(ips[k]).None?
    ensures |V6s(ips)| <= |ips| && (AllIPv4(ips) ==> V6s(ips) == [])
    decreases |ips|
  {
    hide To4;
    if ips != [] {
      var rest := ips[1..];
      V6sExact(rest);
      assert forall k :: 0 < k < |ips| ==> ips[k] == rest[k - 1];
      assert forall k :: 0 <= k < |rest| ==> rest[k] == ips[k + 1];
      if To4(ips[0]).None? {
        assert ([ips[0]] + V6s(rest))[1..] == V6s(rest);
        assert ips == [ips[0]] + rest;
      }
    }
  }

  lemma {:induction false} V4sExact(ips: seq<bytes>)
    ensures V4s(ips) == [] <==> forall k :: 0 <= k < |ips| ==> To4(ips[k]).None?
    ensures |V4s(ips)| <= |ips| && (AllIPv4(ips) <==> |V4s(ips)| == |ips|)
    ensures AllIPv4(ips) ==> forall k :: 0 <= k < |ips| ==> Some(V4s(ips)[k]) == To4(ips[k])
    decreases |ips|
  {
    hide To4;
    if ips != [] {
      var rest := ips[1..];
      V4sExact(rest);
      assert forall k :: 0 < k < |ips| ==> ips[k] == rest[k - 1];
      assert forall k :: 0 <= k < |rest| ==> rest[k] == ips[k + 1];
    }
  }

  /**
   * An IPv6 list comes back as it was exactly if none of its addresses is an IPv4 address in IPv6 form: those are packed
   * as A records and come back in the other list.
   */
  lemma IPv6Returns(r: Records, request: bytes, now: int, minTtl: nat, later: int, floor: nat)
    requires OneQuestion(request) && minTtl < 0x1_0000_0000
    requires Addresses(AddressesOf(r.ipv4)) && Addresses(AddressesOf(r.ipv6))
    requires r.ipv6.Some? && 0 < |r.ipv6.value.addresses| < 0x1_0000
    ensures var back := GetAnswers(BuildResponse(r, request, TYPE_AAAA, now, minTtl), NO_RECORDS, later, floor, NO_FILTER);
      var ips := r.ipv6.value.addresses;
      && back.Some?
      && (AddressesOf(back.value.ipv6) == ips && back.value.ipv4.None? <==> forall k :: 0 <= k < |ips| ==> To4(ips[k]).None?)
  {
    hide GetAnswers, BuildResponse, V4s, V6s, To4;
    AddressesReturn(r, request, TYPE_AAAA, now, minTtl, later, floor);
    V6sExact(r.ipv6.value.addresses);
    V4sExact(r.ipv6.value.addresses);
  }

  /** An IPv4 list comes back, as four bytes each, exactly if every address on it is one. */
  lemma IPv4Returns(r: Records, request: bytes, now: int, minTtl: nat, later: int, floor: nat)
    requires OneQuestion(request) && minTtl < 0x1_0000_0000
    requires Addresses(AddressesOf(r.ipv4)) && Addresses(AddressesOf(r.ipv6))
    requires r.ipv4.Some? && 0 < |r.ipv4.value.addresses| < 0x1_0000
    ensures var back := GetAnswers(BuildResponse(r, request, TYPE_A, now, minTtl), NO_RECORDS, later, floor, NO_FILTER);
      var ips := r.ipv4.value.addresses;
      && back.Some?
      && (|AddressesOf(back.value.ipv4)| == |ips| <==> AllIPv4(ips))
      && (AllIPv4(ips) ==> back.value.ipv6.None?)
      && (AllIPv4(ips) ==> forall k :: 0 <= k < |ips| ==> Some(AddressesOf(back.value.ipv4)[k]) == To4(ips[k]))
  {
    hide GetAnswers, BuildResponse, V4s, V6s, To4;
    AddressesReturn(r, request, TYPE_A, now, minTtl, later, floor);
    V6sExact(r.ipv4.value.addresses);
    V4sExact(r.ipv4.value.addresses);
  }

  // ---- the service record -------------------------------------------------

  lemma ParamRead(pre: bytes, key: nat, value: bytes, more: bytes, r: Records, expires: int)
    requires value != [] && |value| < 0x1_0000 && key < 0x1_0000
    ensures var d := pre + Param(key, value) + more;
      var off, end := |pre| + 4, |pre| + 4 + |value|;
      ReadParams(d, |pre|, r, expires) ==
        match WithParam(d, key, off, end, r, expires)
        case None => None
        case Some(next) => ReadParams(d, end, next, expires)
  {
    hide ToBE, WithParam;
    var k, l := ToBE(key, 2), ToBE(|value|, 2);
    var d := pre + Param(key, value) + more;
    assert d[|pre|..|pre| + 2] == k && d[|pre| + 2..|pre| + 4] == l;
    U16At(d, |pre|, key);
    U16At(d, |pre| + 2, |value|);
  }

  lemma AlpnRead(pre: bytes, x: Records, more: bytes, r: Records)
    ensures ReadAlpns(pre + AlpnValue(x) + more, |pre|, |pre| + |AlpnValue(x)|, r)
         == r.(http2 := r.http2 || x.https, http3 := r.http3 || x.http3)
  {
    hide ReadAlpns;
    var d := pre + AlpnValue(x) + more;
    var end := |pre| + |AlpnValue(x)|;
    var after3 := if x.http3 then |pre| + 3 else |pre|;
    var r3 := r.(http3 := r.http3 || x.http3);
    assert ReadAlpns(d, |pre|, end, r) == ReadAlpns(d, after3, end, r3) by {
      if x.http3 {
        assert d[|pre| + 1..|pre| + 3] == H3;
        OneAlpnRead(d, |pre|, end, r);
      }
    }
    var r2 := r3.(http2 := r3.http2 || x.https);
    assert ReadAlpns(d, after3, end, r3) == ReadAlpns(d, end, end, r2) by {
      if x.https {
        assert d[after3 + 1..after3 + 3] == H2;
        OneAlpnRead(d, after3, end, r3);
      }
    }
    NoAlpnRead(d, end, r2);
  }

  lemma NoAlpnRead(d: bytes, end: nat, r: Records)
    requires end <= |d|
    ensures ReadAlpns(d, end, end, r) == r
  {
  }

  lemma OneAlpnRead(d: bytes, off: nat, end: nat, r: Records)
    requires off + 3 <= end <= |d| && d[off] == 2 && (d[off + 1..off + 3] == H2 || d[off + 1..off + 3] == H3)
    ensures ReadAlpns(d, off, end, r)
         == ReadAlpns(d, off + 3, end, if d[off + 1..off + 3] == H2 then r.(http2 := true) else r.(http3 := true))
  {
    assert H2[1] != H3[1] && |H1| != |H2| == |H3|;
  }

  /** The IPv4 hints of a service record come back in IPv6 form. */
  function Mapped(ips: seq<bytes>): (r: seq<bytes>)
    requires AllIPv4(ips)
    ensures |r| == |ips|
  {
    seq(|ips|, k requires 0 <= k < |ips| => To16(To4(ips[k]).value))
  }

  function AllTo16(ips: seq<bytes>): (r: seq<bytes>)
    ensures |r| == |ips|
  {
    seq(|ips|, k requires 0 <= k < |ips| => To16(ips[k]))
  }

  lemma {:induction false} V4Read(pre: bytes, ips: seq<bytes>, more: bytes)
    requires AllIPv4(ips)
    ensures ReadAddresses(pre + V4Value(ips) + more, |pre|, |pre| + |V4Value(ips)|, 4) == Some(Mapped(ips))
    decreases |ips|
  {
    hide To4, To16;
    if ips != [] {
      var ip, rest := To4(ips[0]).value, V4Value(ips[1..]);
      var d := pre + V4Value(ips) + more;
      assert d == (pre + ip) + rest + more && |pre + ip| == |pre| + 4;
      assert d[|pre|..|pre| + 4] == ip;
      V4Read(pre + ip, ips[1..], more);
      assert Mapped(ips) == [To16(ip)] + Mapped(ips[1..]);
    } else {
      assert Mapped(ips) == [];
    }
  }

  lemma {:induction false} V6Read(pre: bytes, ips: seq<bytes>, more: bytes)
    requires Addresses(ips)
    ensures ReadAddresses(pre + V6Value(ips) + more, |pre|, |pre| + |V6Value(ips)|, 16) == Some(AllTo16(ips))
    decreases |ips|
  {
    if ips != [] {
      var ip, rest := To16(ips[0]), V6Value(ips[1..]);
      assert |ip| == 16 && To16(ip) == ip;
      hide To16;
      var d := pre + V6Value(ips) + more;
      assert d == (pre + ip) + rest + more && |pre + ip| == |pre| + 16;
      assert d[|pre|..|pre| + 16] == ip;
      V6Read(pre + ip, ips[1..], more);
      assert AllTo16(ips) == [ip] + AllTo16(ips[1..]);
    } else {
      assert AllTo16(ips) == [];
    }
  }

  function HintOf(ips: seq<bytes>, expires: int): (h: Option<Hint>) {
    if ips == [] then None else Some(Hint(expires, ips))
  }

  /** A parameter seen as its value between what is before and what is behind it. */
  lemma ParamParts(pre: bytes, key: nat, value: bytes, more: bytes) returns (before: bytes)
    ensures |before| == |pre| + 4 && pre + Param(key, value) + more == before + value + more
  {
    hide ToBE;
    before := pre + ToBE(key, 2) + ToBE(|value|, 2);
  }

  lemma AlpnStep(pre: bytes, x: Records, more: bytes, r: Records, expires: int)
    ensures var p := ParamIf(ALPN_KEY, AlpnValue(x));
      ReadParams(pre + p + more, |pre|, r, expires)
      == ReadParams(pre + p + more, |pre| + |p|, r.(http2 := r.http2 || x.https, http3 := r.http3 || x.http3), expires)
  {
    assert |AlpnValue(x)| <= 6 && (AlpnValue(x) == [] ==> !x.http3 && !x.https);
    hide AlpnValue, ReadParams, ReadAlpns, Param;
    if AlpnValue(x) != [] {
      ParamRead(pre, ALPN_KEY, AlpnValue(x), more, r, expires);
      var before := ParamParts(pre, ALPN_KEY, AlpnValue(x), more);
      AlpnRead(before, x, more, r);
    }
  }

  lemma V4Step(pre: bytes, ips: seq<bytes>, more: bytes, r: Records, expires: int)
    requires AllIPv4(ips) && 4 * |ips| < 0x1_0000 && r.ipv4.None?
    ensures var p := ParamIf(IPV4_KEY, V4Value(ips));
      ReadParams(pre + p + more, |pre|, r, expires)
      == ReadParams(pre + p + more, |pre| + |p|,
                    r.(ipv4 := HintOf(Mapped(ips), expires)), expires)
  {
    hide V4Value, ReadParams, ReadAddresses, Param, Mapped;
    if ips != [] {
      ParamRead(pre, IPV4_KEY, V4Value(ips), more, r, expires);
      var before := ParamParts(pre, IPV4_KEY, V4Value(ips), more);
      V4Read(before, ips, more);
    }
  }

  lemma EchStep(pre: bytes, ech: bytes, more: bytes, r: Records, expires: int)
    requires |ech| < 0x1_0000 && r.ech == []
    ensures var p := ParamIf(ECH_KEY, ech);
      ReadParams(pre + p + more, |pre|, r, expires)
      == ReadParams(pre + p + more, |pre| + |p|, r.(ech := ech), expires)
  {
    hide ReadParams, Param;
    if ech != [] {
      ParamRead(pre, ECH_KEY, ech, more, r, expires);
      var before := ParamParts(pre, ECH_KEY, ech, more);
      assert (before + ech + more)[|before|..|before| + |ech|] == ech;
    }
  }

  lemma V6Step(pre: bytes, ips: seq<bytes>, more: bytes, r: Records, expires: int)
    requires Addresses(ips) && 16 * |ips| < 0x1_0000 && r.ipv6.None?
    ensures var p := ParamIf(IPV6_KEY, V6Value(ips));
      ReadParams(pre + p + more, |pre|, r, expires)
      == ReadParams(pre + p + more, |pre| + |p|,
                    r.(ipv6 := HintOf(AllTo16(ips), expires)), expires)
  {
    hide V6Value, ReadParams, ReadAddresses, Param, AllTo16;
    if ips != [] {
      ParamRead(pre, IPV6_KEY, V6Value(ips), more, r, expires);
      var before := ParamParts(pre, IPV6_KEY, V6Value(ips), more);
      V6Read(before, ips, more);
    }
  }

  /** What a service record leaves of the records: h2 stands for https. */
  function Served(r: Records, expires: int): (back: Records)
    requires AllIPv4(AddressesOf(r.ipv4))
  {
    Records(false, r.https, r.http3, HintOf(Mapped(AddressesOf(r.ipv4)), expires),
            HintOf(AllTo16(AddressesOf(r.ipv6)), expires), r.ech)
  }

  lemma FirstParamsRead(pre: bytes, x: Records, more: bytes, expires: int)
    requires AllIPv4(AddressesOf(x.ipv4)) && 4 * |AddressesOf(x.ipv4)| < 0x1_0000
    ensures var ab := ParamIf(ALPN_KEY, AlpnValue(x)) + ParamIf(IPV4_KEY, V4Value(AddressesOf(x.ipv4)));
      ReadParams(pre + ab + more, |pre|, NO_RECORDS, expires)
      == ReadParams(pre + ab + more, |pre| + |ab|,
                    Records(false, x.https, x.http3, HintOf(Mapped(AddressesOf(x.ipv4)), expires), None, []), expires)
  {
    hide AlpnValue, V4Value, ParamIf, ReadParams, Mapped, AllIPv4, HintOf;
    var a, b := ParamIf(ALPN_KEY, AlpnValue(x)), ParamIf(IPV4_KEY, V4Value(AddressesOf(x.ipv4)));
    assert pre + (a + b) + more == pre + a + (b + more) == (pre + a) + b + more;
    AlpnStep(pre, x, b + more, NO_RECORDS, expires);
    V4Step(pre + a, AddressesOf(x.ipv4), more, NO_RECORDS.(http2 := x.https, http3 := x.http3), expires);
  }

  lemma LastParamsRead(pre: bytes, x: Records, r: Records, expires: int)
    requires Addresses(AddressesOf(x.ipv6)) && 16 * |AddressesOf(x.ipv6)| < 0x1_0000 && |x.ech| < 0x1_0000
    requires r.ech == [] && r.ipv6.None?
    ensures ReadParams(pre + ParamIf(ECH_KEY, x.ech) + ParamIf(IPV6_KEY, V6Value(AddressesOf(x.ipv6))), |pre|, r, expires)
         == Some(r.(ech := x.ech, ipv6 := HintOf(AllTo16(AddressesOf(x.ipv6)), expires)))
  {
    hide V6Value, ParamIf, ReadParams, AllTo16, Addresses, HintOf;
    var c, e := ParamIf(ECH_KEY, x.ech), ParamIf(IPV6_KEY, V6Value(AddressesOf(x.ipv6)));
    var d := pre + c + e;
    assert d == (pre + c) + e + [];
    EchStep(pre, x.ech, e, r, expires);
    V6Step(pre + c, AddressesOf(x.ipv6), [], r.(ech := x.ech), expires);
    NoParamsLeft(d, r.(ech := x.ech, ipv6 := HintOf(AllTo16(AddressesOf(x.ipv6)), expires)), expires);
  }

  lemma ParamsRead(pre: bytes, x: Records, expires: int)
    requires AllIPv4(AddressesOf(x.ipv4)) && Addresses(AddressesOf(x.ipv6)) && ParamsLength(x) < 0x1_0000
    ensures ReadParams(pre + Params(x), |pre|, NO_RECORDS, expires) == Some(Served(x, expires))
  {
    hide AlpnValue, V4Value, V6Value, ParamIf, ParamsLength, ReadParams, Mapped, AllTo16, AllIPv4, Addresses, HintOf;
    ParamLengths(x);
    var a, b := ParamIf(ALPN_KEY, AlpnValue(x)), ParamIf(IPV4_KEY, V4Value(AddressesOf(x.ipv4)));
    var ab := a + b;
    var c, e := ParamIf(ECH_KEY, x.ech), ParamIf(IPV6_KEY, V6Value(AddressesOf(x.ipv6)));
    Regrouped(pre, a, b, c, e);
    FirstParamsRead(pre, x, c + e, expires);
    var r := Records(false, x.https, x.http3, HintOf(Mapped(AddressesOf(x.ipv4)), expires), None, []);
    LastParamsRead(pre + ab, x, r, expires);
  }

  lemma Regrouped(pre: bytes, a: bytes, b: bytes, c: bytes, e: bytes)
    ensures pre + (a + b + c + e) == pre + (a + b) + (c + e) == (pre + (a + b)) + c + e
  {
  }

  lemma ParamLengths(x: Records)
    requires ParamsLength(x) < 0x1_0000
    ensures 4 * |AddressesOf(x.ipv4)| < 0x1_0000 && |x.ech| < 0x1_0000 && 16 * |AddressesOf(x.ipv6)| < 0x1_0000
  {
  }

  lemma NoParamsLeft(d: bytes, r: Records, expires: int)
    ensures ReadParams(d, |d|, r, expires) == Some(r)
  {
  }

  /**
   * The service record survives the trip: both hint lists in order and in IPv6 form, the ECH configuration byte for byte,
   * h3 as it was, and the https flag as h2.
   */
  lemma ServiceReturns(r: Records, request: bytes, now: int, minTtl: nat, later: int, floor: nat)
    requires OneQuestion(request) && minTtl < 0x1_0000_0000
    requires AllIPv4(AddressesOf(r.ipv4)) && Addresses(AddressesOf(r.ipv4)) && Addresses(AddressesOf(r.ipv6))
    requires 0 < ParamsLength(r) && 15 + ParamsLength(r) < 0x1_0000
    ensures GetAnswers(BuildResponse(r, request, TYPE_HTTPS, now, minTtl), NO_RECORDS, later, floor, NO_FILTER)
         == Some(Served(r, Later(minTtl, later, floor)))
  {
    hide GetAnswers, BuildResponse, Params, ParamsLength, AllIPv4, Addresses, SvcAnswer, Served, Answered;
    ResponseShape(r, request, TYPE_HTTPS, now, minTtl);
    ResponseRead(request, 1, SvcAnswer(r, minTtl), NO_RECORDS, later, floor);
    ServiceRead(Answered(request, 1), r, minTtl, later, floor);
  }

  lemma ServiceRead(pre: bytes, r: Records, ttl: nat, later: int, floor: nat)
    requires AllIPv4(AddressesOf(r.ipv4)) && Addresses(AddressesOf(r.ipv6)) && ttl < 0x1_0000_0000
    requires 15 + ParamsLength(r) < 0x1_0000
    ensures ReadAnswers(pre + SvcAnswer(r, ttl), |pre|, 1, NO_RECORDS, later, floor, NO_FILTER)
         == Some(Served(r, Later(ttl, later, floor)))
  {
    ParamsSize(r);
    hide RecordHead, Params, ParamsLength, ReadParams, ReadFields, ReadAnswers, Served, AllIPv4, Addresses, Later;
    var head, ps := RecordHead(65, ttl, |Params(r)| + 3), Params(r);
    var before := pre + head + [0, 1, 0];
    var d := pre + SvcAnswer(r, ttl);
    HeadAndParams(pre, head, [0, 1, 0], ps);
    HeadRead(pre, 65, ttl, |ps| + 3, [0, 1, 0] + ps);
    ParamsRead(before, r, Later(ttl, later, floor));
    OneServiceRead(d, |pre|, Served(r, Later(ttl, later, floor)), later, floor);
  }

  lemma HeadAndParams(pre: bytes, head: bytes, target: bytes, ps: bytes)
    ensures pre + (head + target + ps) == pre + head + target + ps == pre + head + (target + ps)
  {
  }

  lemma OneServiceRead(d: bytes, off: nat, next: Records, now: int, minTtl: nat)
    requires ReadFields(d, off).Some? && ReadFields(d, off).value.rtype == TYPE_HTTPS
    requires var f := ReadFields(d, off).value;
      ReadParams(d, f.data + 3, NO_RECORDS, Later(f.ttl, now, minTtl)) == Some(next)
    ensures ReadAnswers(d, off, 1, NO_RECORDS, now, minTtl, NO_FILTER) == Some(next)
  {
    hide ReadFields, ReadParams, ParamsStop, WithAddress;
  }

  // ---- requests of one question -------------------------------------------

  /** Every label has 1 to 62 bytes: a longer one would be taken for a compression pointer. */
  predicate ShortLabels(name: bytes)
    decreases |name|
  {
    var n := DotAt(name);
    1 <= n < 63 && (n < |name| ==> ShortLabels(name[n + 1..]))
  }

  lemma {:induction false} ShortNameEnd(pre: bytes, name: bytes, tail: bytes)
    requires ShortLabels(name) && |tail| >= 2
    ensures NameEnd(pre + Wire(name) + tail, |pre|) == |pre| + |Wire(name)|
    decreases |name|
  {
    hide Wire, DotAt;
    WireStep(name);
    var n := DotAt(name);
    var one := [LowByte(n)] + name[..n];
    var more := if n == |name| then [0] else Wire(name[n + 1..]);
    var d := pre + Wire(name) + tail;
    assert d == (pre + one) + more + tail && d[|pre|] == n;
    if n == |name| {
      assert d[|pre| + 1 + n] == 0;
    } else {
      ShortNameEnd(pre + one, name[n + 1..], tail);
    }
  }

  /** With a label of 63 bytes the walk stops short of the end of the name. */
  lemma {:induction false} LongLabelStops(pre: bytes, name: bytes, tail: bytes)
    requires Labels(name) && !ShortLabels(name) && |tail| >= 2
    ensures NameEnd(pre + Wire(name) + tail, |pre|) < |pre| + |Wire(name)|
    decreases |name|
  {
    hide Wire, DotAt;
    WireStep(name);
    var n := DotAt(name);
    var one := [LowByte(n)] + name[..n];
    var more := if n == |name| then [0] else Wire(name[n + 1..]);
    var d := pre + Wire(name) + tail;
    assert d == (pre + one) + more + tail && d[|pre|] == n;
    if n < 63 {
      LongLabelStops(pre + one, name[n + 1..], tail);
    }
  }

  /**
   * The requests this program makes for names with labels of 1 to 63 bytes are requests of one question exactly if no
   * label has 63: GetQName accepts such a label, GetNameOffset takes it for a pointer.
   */
  lemma RequestIsOneQuestion(name: bytes, qtype: nat, id: nat)
    requires Labels(name)
    ensures OneQuestion(Request(name, |name|, qtype, id, None, 0)) <==> ShortLabels(name)
  {
    hide Wire, ToBE, NameEnd, Labels, ShortLabels, Unended;
    var tail := ToBE(qtype, 2) + [0, 1];
    var d := Request(name, |name|, qtype, id, None, 0);
    WireEnds(name);
    assert name[..|name|] == name;
    assert d == Head(id, None, 0) + Wire(name) + tail;
    assert d[4] == 0 && d[5] == 1 && d[6] == 0 && d[7] == 0;
    if ShortLabels(name) {
      ShortNameEnd(Head(id, None, 0), name, tail);
    } else {
      LongLabelStops(Head(id, None, 0), name, tail);
    }
  }
}
