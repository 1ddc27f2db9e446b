/** DNS messages field by field (section 4.1 of RFC 1035, section 6 of RFC 7871): what is packed reads as it should. */
module DnsShape {
  import opened Bytes
  import opened ClientHello
  import opened DnsQuestion
  import opened DnsAnswers
  import opened DnsReading
  import opened DnsRoundTrip

  // ---- fields -------------------------------------------------------------

  function Ascii(s: string): (b: bytes)
    requires forall k :: 0 <= k < |s| ==> s[k] < 128 as char
    ensures |b| == |s|
  {
    seq(|s|, k requires 0 <= k < |s| => s[k] as int)
  }

  /** The six numbers a message starts with. */
  datatype Header = Header(id: nat, flags: nat, questions: nat, answers: nat, authorities: nat, additional: nat)

  function HeaderOf(d: bytes): (h: Header)
    requires |d| >= 12
  {
    Header(U16(d, 0), U16(d, 2), U16(d, 4), U16(d, 6), U16(d, 8), U16(d, 10))
  }

  lemma IdRead(d: bytes, id: nat)
    requires |d| >= 2 && d[..2] == ToBE(id, 2) && id < 0x1_0000
    ensures U16(d, 0) == id
  {
    assert d[0..2] == d[..2];
    U16At(d, 0, id);
  }

  // ---- requests -----------------------------------------------------------

  lemma RequestHeader(name: bytes, runes: nat, qtype: nat, id: nat, ecs: Option<bytes>, qtype2: nat)
    requires runes <= |name| && (ecs.Some? ==> Address(ecs.value)) && id < 0x1_0000
    ensures var d := Request(name, runes, qtype, id, ecs, qtype2);
      HeaderOf(d) == Header(id, 0x0100, if qtype2 == 0 then 1 else 2, 0, 0, if ecs.Some? then 1 else 0)
  {
    hide ToBE, Questions, Subnet;
    var d := Request(name, runes, qtype, id, ecs, qtype2);
    assert d[..12] == Head(id, ecs, qtype2);
    assert d[..2] == ToBE(id, 2);
    IdRead(d, id);
    assert d[2..12] == [1, 0, 0, if qtype2 != 0 then 2 else 1] + Zeros(4) + [0, if ecs.Some? then 1 else 0];
    HeadTail(d, qtype2 != 0, ecs.Some?);
  }

  lemma HeadTail(d: bytes, two: bool, more: bool)
    requires |d| >= 12 && d[2..12] == [1, 0, 0, if two then 2 else 1] + Zeros(4) + [0, if more then 1 else 0]
    ensures U16(d, 2) == 0x0100 && U16(d, 4) == (if two then 2 else 1) && U16(d, 6) == 0 && U16(d, 8) == 0
    ensures U16(d, 10) == if more then 1 else 0
  {
    var t := d[2..12];
    assert forall k :: 0 <= k < 10 ==> d[k + 2] == t[k];
    assert d[2] == t[0] && d[3] == t[1] && d[4] == t[2] && d[5] == t[3] && d[6] == t[4] && d[7] == t[5] && d[8] == t[6]
      && d[9] == t[7] && d[10] == t[8] && d[11] == t[9];
  }

  /**
   * A request for two types: the first question is a pointer to the place of the second one's name, its type and IN; without
   * it the second question is read like any, with its own type.
   */
  lemma SecondQuestion(name: bytes, qtype: nat, id: nat, ecs: Option<bytes>, qtype2: nat)
    requires (ecs.Some? ==> Address(ecs.value)) && qtype < 0x1_0000 && 0 < qtype2 < 0x1_0000
    ensures var d := Request(name, |name|, qtype, id, ecs, qtype2);
      && |d| > 18 && U16(d, 12) == 0xc000 + 18 && U16(d, 14) == qtype && U16(d, 16) == 1
      && (GetQName(d[..12] + d[18..]) == Question(name, qtype2, 18 + |name|) <==> Readable(name))
      && U16(d, 22 + |name|) == 1
  {
    hide *;
    var head, tail, t := Head(id, ecs, qtype2), ToBE(qtype2, 2) + [0, 1] + Subnet(ecs), ToBE(qtype, 2);
    var d := Request(name, |name|, qtype, id, ecs, qtype2);
    TwoQuestions(name, qtype, id, ecs, qtype2);
    TwoParts(head, t, Wire(name), tail, d);
    U16At(d, 14, qtype);
    QuestionReadBack(head, name, qtype2, Subnet(ecs));
    assert d[..12] + d[18..] == head + Wire(name) + tail;
    ClassBehind(d, name, qtype2, Subnet(ecs));
    PointerRead(d);
  }

  lemma PointerRead(d: bytes)
    requires |d| > 18 && d[12] == 0xc0 && d[13] == 0x12 && d[16] == 0 && d[17] == 1
    ensures U16(d, 12) == 0xc000 + 18 && U16(d, 16) == 1
  {
  }

  lemma ClassBehind(d: bytes, name: bytes, qtype2: nat, subnet: bytes)
    requires |d| >= 18 && d[18..] == Wire(name) + (ToBE(qtype2, 2) + [0, 1] + subnet)
    ensures |d| >= 24 + |name| && U16(d, 22 + |name|) == 1
  {
    hide ToBE, Wire;
    var at := |name| + 4;
    assert d[18..][at] == 0 && d[18..][at + 1] == 1;
  }

  lemma TwoQuestions(name: bytes, qtype: nat, id: nat, ecs: Option<bytes>, qtype2: nat)
    requires (ecs.Some? ==> Address(ecs.value)) && qtype2 != 0
    ensures Request(name, |name|, qtype, id, ecs, qtype2)
         == Head(id, ecs, qtype2) + ([0xc0, 0x12] + ToBE(qtype, 2) + [0, 1] + Wire(name) + (ToBE(qtype2, 2) + [0, 1] + Subnet(ecs)))
    ensures |ToBE(qtype, 2)| == 2
  {
    hide *;
    QuestionsAre(name, qtype, qtype2);
    Grouped(Head(id, ecs, qtype2), [0xc0, 0x12] + ToBE(qtype, 2) + [0, 1] + Wire(name), ToBE(qtype2, 2) + [0, 1], Subnet(ecs));
    RequestIs(name, qtype, id, ecs, qtype2);
  }

  lemma RequestIs(name: bytes, qtype: nat, id: nat, ecs: Option<bytes>, qtype2: nat)
    requires ecs.Some? ==> Address(ecs.value)
    ensures Request(name, |name|, qtype, id, ecs, qtype2) == Head(id, ecs, qtype2) + Questions(name, |name|, qtype, qtype2) + Subnet(ecs)
    ensures |ToBE(qtype, 2)| == 2
  {
    hide Subnet, Questions, Head;
  }

  lemma QuestionsAre(name: bytes, qtype: nat, qtype2: nat)
    requires qtype2 != 0
    ensures Questions(name, |name|, qtype, qtype2)
         == [0xc0, 0x12] + ToBE(qtype, 2) + [0, 1] + Wire(name) + (ToBE(qtype2, 2) + [0, 1])
  {
    WholePacked(name);
    hide ToBE, Wire, PackedName;
    var a := [0xc0, 0x12] + ToBE(qtype, 2) + [0, 1] + Wire(name);
    assert a + ToBE(qtype2, 2) + [0, 1] == a + (ToBE(qtype2, 2) + [0, 1]);
  }

  lemma Grouped(a: bytes, b: bytes, c: bytes, e: bytes)
    ensures a + (b + c) + e == a + (b + (c + e))
  {
  }

  lemma TwoParts(head: bytes, t: bytes, wire: bytes, tail: bytes, d: bytes)
    requires |head| == 12 && |t| == 2 && d == head + ([0xc0, 0x12] + t + [0, 1] + wire + tail)
    ensures d[..12] == head && d[12] == 0xc0 && d[13] == 0x12 && d[14..16] == t && d[16] == 0 && d[17] == 1
    ensures d[18..] == wire + tail
  {
  }

  /** Of a name with fewer characters than bytes the last bytes are lost, and the name does not end. */
  lemma WideNameIsCut(name: bytes, runes: nat)
    requires runes < |name|
    ensures PackedName(name, runes)[..runes + 1] + [0] == Wire(name[..runes])
    ensures PackedName(name, runes)[runes + 1..] == [name[runes]]
  {
    WireEnds(name[..runes]);
    hide Wire;
  }

  /** The client-subnet pseudo-record: its lengths, its family, and as many bits of the address as it says. */
  lemma SubnetShape(ip: bytes)
    requires Address(ip)
    ensures var b := SubnetRecord(ip);
      && b[0] == 0 && U16(b, 1) == 41 && U16(b, 3) == 4096 && U16(b, 5) == 0 && U16(b, 7) == 0x0800
      && U16(b, 9) == |b| - 11 && U16(b, 11) == 8 && U16(b, 13) == |b| - 15
      && b[17] as int == 8 * (|b| - 19) && b[18] == 0
      && (if |ip| == 4 || ip[..12] == Zeros(10) + [0xff, 0xff]
          then U16(b, 15) == 1 && b[17] == 24 && b[19..] == ip[|ip| - 4..|ip| - 1]
          else U16(b, 15) == 2 && b[17] == 56 && b[19..] == ip[..7])
  {
  }

  // ---- responses ----------------------------------------------------------

  /** Nothing of this type is known, or an address among the IPv4 hints is none. */
  predicate NothingToSay(r: Records, qtype: nat) {
    if qtype == 1 then AddressesOf(r.ipv4) == []
    else if qtype == 28 then AddressesOf(r.ipv6) == []
    else if qtype == 65 then
      || (!r.https && !r.http3 && AddressesOf(r.ipv4) == [] && r.ech == [] && AddressesOf(r.ipv6) == [])
      || exists k :: 0 <= k < |AddressesOf(r.ipv4)| && To4(AddressesOf(r.ipv4)[k]).None?
    else true
  }

  /** How many answers there are otherwise. */
  function Answers(r: Records, qtype: nat): (n: nat) {
    if qtype == 1 then |AddressesOf(r.ipv4)| else if qtype == 28 then |AddressesOf(r.ipv6)| else 1
  }

  lemma AnswerCount(r: Records, qtype: nat, now: int, minTtl: nat)
    requires Addresses(AddressesOf(r.ipv4)) && Addresses(AddressesOf(r.ipv6)) && minTtl < 0x1_0000_0000
    ensures PackAnswers(r, qtype, now, minTtl).count == if NothingToSay(r, qtype) then 0 else Answers(r, qtype)
    ensures PackAnswers(r, qtype, now, minTtl).count == 0 <==> NothingToSay(r, qtype)
  {
    hide SvcAnswer, AnswersOf, TimeToLive, To4;
    if qtype == 65 {
      assert AllIPv4(AddressesOf(r.ipv4)) <==> !exists k :: 0 <= k < |AddressesOf(r.ipv4)| && To4(AddressesOf(r.ipv4)[k]).None?;
    }
  }

  /**
   * A response repeats the request's number and its questions, and says how many answers follow; where there is nothing
   * to say it has an authority record instead.
   */
  lemma ResponseHeader(r: Records, request: bytes, qtype: nat, now: int, minTtl: nat)
    requires Addresses(AddressesOf(r.ipv4)) && Addresses(AddressesOf(r.ipv6)) && minTtl < 0x1_0000_0000 && |request| >= 12
    requires |AddressesOf(r.ipv4)| < 0x1_0000 && |AddressesOf(r.ipv6)| < 0x1_0000
    ensures var d, h := BuildResponse(r, request, qtype, now, minTtl), HeaderOf(request);
      && |d| >= |request| && d[12..|request|] == request[12..]
      && HeaderOf(d) == if NothingToSay(r, qtype) then Header(h.id, 0x8180, h.questions, h.answers, 1, h.additional)
                        else Header(h.id, 0x8180, h.questions, Answers(r, qtype), h.authorities, h.additional)
  {
    hide PackAnswers, ToBE, NothingToSay, SOA;
    AnswerCount(r, qtype, now, minTtl);
    var p := PackAnswers(r, qtype, now, minTtl);
    var d := BuildResponse(r, request, qtype, now, minTtl);
    if p.count == 0 {
      var more := [0x00, 0x00, 0x06, 0x00, 0x01] + ToBE(minTtl, 4) + SOA + ToBE(minTtl, 4);
      NodataHeader(request, more, d);
    } else {
      AnsweredHeader(request, p, d);
    }
  }

  lemma NodataHeader(request: bytes, more: bytes, d: bytes)
    requires |request| >= 12 && d == request[..2] + [0x81, 0x80] + request[4..8] + [0x00, 0x01] + request[10..] + more
    ensures var h := HeaderOf(request);
      |d| >= |request| && HeaderOf(d) == Header(h.id, 0x8180, h.questions, h.answers, 1, h.additional)
      && d[12..|request|] == request[12..]
  {
    assert d[0] == request[0] && d[1] == request[1] && d[4] == request[4] && d[5] == request[5] && d[6] == request[6];
    assert d[7] == request[7] && d[10] == request[10] && d[11] == request[11];
  }

  lemma AnsweredHeader(request: bytes, p: Packed, d: bytes)
    requires |request| >= 12 && d == request[..2] + [0x81, 0x80] + request[4..6] + ToBE(p.count, 2) + request[8..] + p.answers
    requires p.count < 0x1_0000
    ensures var h := HeaderOf(request);
      |d| >= |request| && HeaderOf(d) == Header(h.id, 0x8180, h.questions, p.count, h.authorities, h.additional)
      && d[12..|request|] == request[12..]
  {
    assert |ToBE(p.count, 2)| == 2;
    hide ToBE;
    assert d[6..8] == ToBE(p.count, 2);
    U16At(d, 6, p.count);
    assert d[2] == 0x81 && d[3] == 0x80;
    HeaderKept(request, d);
  }

  lemma HeaderKept(request: bytes, d: bytes)
    requires |request| >= 12 && |d| >= |request| && d[..2] == request[..2] && d[4..6] == request[4..6] && d[8..|request|] == request[8..]
    ensures U16(d, 0) == U16(request, 0) && U16(d, 4) == U16(request, 4)
    ensures U16(d, 8) == U16(request, 8) && U16(d, 10) == U16(request, 10) && d[12..|request|] == request[12..]
  {
    assert d[0] == d[..2][0] && d[1] == d[..2][1] && d[4] == d[4..6][0] && d[5] == d[4..6][1];
    var rest := d[8..|request|];
    assert d[8] == rest[0] && d[9] == rest[1] && d[10] == rest[2] && d[11] == rest[3];
    assert request[4..6][0] == request[4] && request[4..6][1] == request[5];
    assert d[12..|request|] == rest[4..];
  }

  /**
   * The authority record behind an empty answer: a SOA record of the root, whose length is that of what follows, and whose
   * time to live and last field are the least one.
   */
  lemma NodataShape(request: bytes, minTtl: nat)
    requires |request| >= 12 && minTtl < 0x1_0000_0000
    ensures var d, n := BuildNodata(request, minTtl), |request|;
      && |d| > n + 14 && d[n] == 0 && U16(d, n + 1) == 6 && U16(d, n + 3) == 1 && BE(d[n + 5..n + 9]) == minTtl
      && U16(d, n + 9) == |d| - (n + 11) && BE(d[|d| - 4..]) == minTtl
  {
    hide *;
    TtlRead(minTtl);
    SoaSize();
    NodataIs(request, minTtl);
    var front := request[..2] + [0x81, 0x80] + request[4..8] + [0x00, 0x01] + request[10..];
    RecordParts(front, ToBE(minTtl, 4), SOA, BuildNodata(request, minTtl));
  }

  lemma SoaSize()
    ensures |SOA| == 62 && U16(SOA, 0) == 64
  {
    assert |SOA_DATA| == 60;
    hide SOA_DATA;
    assert SOA[0] == 0 && SOA[1] == 64;
  }

  lemma NodataIs(request: bytes, minTtl: nat)
    requires |request| >= 12
    ensures |ToBE(minTtl, 4)| == 4
    ensures BuildNodata(request, minTtl)
         == request[..2] + [0x81, 0x80] + request[4..8] + [0x00, 0x01] + request[10..] + [0, 0, 6, 0, 1] + ToBE(minTtl, 4) + SOA
            + ToBE(minTtl, 4)
  {
    hide SOA, ToBE;
    assert |ToBE(minTtl, 4)| == 4;
  }

  lemma RecordParts(front: bytes, t: bytes, soa: bytes, d: bytes)
    requires d == front + [0, 0, 6, 0, 1] + t + soa + t && |t| == 4 && |soa| == 62 && U16(soa, 0) == 64
    ensures var n := |front|;
      && |d| == n + 75 && d[n] == 0 && U16(d, n + 1) == 6 && U16(d, n + 3) == 1 && d[n + 5..n + 9] == t
      && U16(d, n + 9) == 64 && d[|d| - 4..] == t
  {
    var n := |front|;
    assert d[n + 1] == 0 && d[n + 2] == 6 && d[n + 3] == 0 && d[n + 4] == 1 && d[n + 9] == soa[0] && d[n + 10] == soa[1];
  }

  // ---- times to live ------------------------------------------------------

  /** What is left, counted modulo 2^32, but not less than the least one; a hint without a time has the least one. */
  lemma LeftToLive(expires: int, now: int, minTtl: nat, wraps: int)
    requires minTtl < 0x1_0000_0000 && 0 <= expires - now + wraps * 0x1_0000_0000 < 0x1_0000_0000
    ensures expires <= 0 ==> TimeToLive(expires, now, minTtl) == minTtl
    ensures expires > 0 ==>
      var left := expires - now + wraps * 0x1_0000_0000;
      TimeToLive(expires, now, minTtl) == if left < minTtl then minTtl else left
  {
  }

  // ---- addresses ----------------------------------------------------------

  /** An IPv4 address is four bytes, or those behind ten zeros and two bytes of ones. */
  lemma FourBytes(ip: bytes, v: bytes)
    ensures To4(ip) == Some(v) <==> |v| == 4 && (ip == v || ip == [0, 0, 0, 0, 0, 0, 0, 0, 0, 0, 255, 255] + v)
    ensures To16(ip) == if |ip| == 4 then [0, 0, 0, 0, 0, 0, 0, 0, 0, 0, 255, 255] + ip else ip
  {
  }

  // ---- protocol names -----------------------------------------------------

  function PrintAlpns(names: seq<bytes>): (b: bytes)
    requires forall k :: 0 <= k < |names| ==> |names[k]| < 256
  {
    if names == [] then [] else [|names[0]|] + names[0] + PrintAlpns(names[1..])
  }

  /** Of a list of protocols, three are noted wherever they stand, and no other. */
  lemma {:induction false} AlpnsRead(pre: bytes, names: seq<bytes>, more: bytes, r: Records)
    requires forall k :: 0 <= k < |names| ==> 0 < |names[k]| < 256
    ensures ReadAlpns(pre + PrintAlpns(names) + more, |pre|, |pre| + |PrintAlpns(names)|, r)
         == r.(https := r.https || Ascii("http/1.1") in names, http2 := r.http2 || Ascii("h2") in names,
               http3 := r.http3 || Ascii("h3") in names)
    decreases |names|
  {
    hide ReadAlpns;
    var d := pre + PrintAlpns(names) + more;
    if names == [] {
      NoAlpnRead(d, |pre|, r);
    } else {
      var name, rest := names[0], PrintAlpns(names[1..]);
      var pre' := pre + [|name|] + name;
      assert d == pre + [|name|] + name + (rest + more);
      assert d == pre' + rest + more;
      OneNameRead(pre, name, rest + more, |pre| + |PrintAlpns(names)|, r);
      AlpnsRead(pre', names[1..], more, WithAlpn(r, name));
      ProtocolNames();
      assert names == [name] + names[1..];
    }
  }

  lemma ProtocolNames()
    ensures Ascii("http/1.1") == H1 && Ascii("h2") == H2 && Ascii("h3") == H3
  {
  }

  lemma OneNameRead(pre: bytes, name: bytes, more: bytes, end: nat, r: Records)
    requires 0 < |name| < 256
    requires |pre| + 1 + |name| <= end <= |pre + [|name|] + name + more|
    ensures var d := pre + [|name|] + name + more; ReadAlpns(d, |pre|, end, r) == ReadAlpns(d, |pre| + 1 + |name|, end, WithAlpn(r, name))
  {
    var d := pre + [|name|] + name + more;
    assert d[|pre|] == |name| && d[|pre| + 1..|pre| + 1 + |name|] == name;
  }

  /** What every answer starts with: a pointer to the name of the question, type, class IN, time to live and length. */
  lemma RecordHeadShape(rtype: byte, ttl: nat, length: nat)
    requires ttl < 0x1_0000_0000 && length < 0x1_0000
    ensures var b := RecordHead(rtype, ttl, length);
      U16(b, 0) == 0xc000 + 12 && U16(b, 2) == rtype as nat && U16(b, 4) == 1 && BE(b[6..10]) == ttl && U16(b, 10) == length
  {
    hide ToBE, BE;
    var b := RecordHead(rtype, ttl, length);
    assert b[6..10] == ToBE(ttl, 4) && b[10..12] == ToBE(length, 2);
    TtlRead(ttl);
    U16At(b, 10, length);
    assert b[0] == 0xc0 && b[1] == 0x0c && b[2] == 0 && b[3] == rtype && b[4] == 0 && b[5] == 1;
  }

  /** The service record itself: its length is that of what follows, its priority 1, and its target the name itself. */
  lemma ServiceShape(r: Records, minTtl: nat)
    requires AllIPv4(AddressesOf(r.ipv4)) && Addresses(AddressesOf(r.ipv6)) && minTtl < 0x1_0000_0000 && |Params(r)| + 3 < 0x1_0000
    ensures var b := SvcAnswer(r, minTtl);
      && |b| >= 15 && U16(b, 2) == 65 && BE(b[6..10]) == minTtl && U16(b, 10) == |b| - 12 && U16(b, 12) == 1 && b[14] == 0
  {
    hide Params, RecordHead, AllIPv4, Addresses, BE;
    RecordHeadShape(65, minTtl, |Params(r)| + 3);
    var h, b := RecordHead(65, minTtl, |Params(r)| + 3), SvcAnswer(r, minTtl);
    assert b[..12] == h && b[12] == 0 && b[13] == 1 && b[14] == 0;
    assert b[2] == b[..12][2] && b[3] == b[..12][3] && b[6..10] == h[6..10] && b[10] == b[..12][10] && b[11] == b[..12][11];
  }

  // ---- reading answers ----------------------------------------------------

  /**
   * A list with time left that is read in the second in which it was packed comes back with its own time, or with the
   * reader's least one if that is later.
   */
  lemma ExpiryReturns(r: Records, request: bytes, qtype: nat, now: int, minTtl: nat, floor: nat)
    requires OneQuestion(request) && minTtl < 0x1_0000_0000
    requires Addresses(AddressesOf(r.ipv4)) && Addresses(AddressesOf(r.ipv6))
    requires Asked(r, qtype).Some? && 0 < |Asked(r, qtype).value.addresses| < 0x1_0000
    requires var h := Asked(r, qtype).value;
      0 < h.expires && minTtl <= h.expires - now < 0x1_0000_0000
    ensures var back := GetAnswers(BuildResponse(r, request, qtype, now, minTtl), NO_RECORDS, now, floor, NO_FILTER);
      var expires := Asked(r, qtype).value.expires;
      && back.Some? && (back.value.ipv4.Some? || back.value.ipv6.Some?)
      && (back.value.ipv4.Some? ==> back.value.ipv4.value.expires == if expires < now + floor then now + floor else expires)
      && (back.value.ipv6.Some? ==> back.value.ipv6.value.expires == if expires < now + floor then now + floor else expires)
  {
    hide GetAnswers, BuildResponse, V4s, V6s, TimeToLive, OneQuestion, Addresses, To4;
    var h := Asked(r, qtype).value;
    LeftToLive(h.expires, now, minTtl, 0);
    AddressesReturn(r, request, qtype, now, minTtl, now, floor);
    V4sExact(h.addresses);
    V6sExact(h.addresses);
    assert To4(h.addresses[0]).None? || V4s(h.addresses) != [];
  }

  /** The address as the filter is asked about it. */
  function Seen(ip: bytes): (seen: bytes) {
    match To4(ip) case Some(ip4) => [0, 0, 0, 0, 0, 0, 0, 0, 0, 0, 255, 255] + ip4 case None => ip
  }

  /**
   * One address record under any filter: what the filter makes of the address is noted; where it drops the address, or
   * makes no IPv4 address of one, reading goes on at the address itself.
   */
  lemma FilteredAnswer(pre: bytes, ip: bytes, ttl: nat, more: bytes, n: nat, r: Records, now: int, minTtl: nat, filter: Filter)
    requires Address(ip) && ttl < 0x1_0000_0000
    ensures var d, end := pre + AnswerOf(ip, ttl) + more, |pre| + |AnswerOf(ip, ttl)|;
      var expires := Later(ttl, now, minTtl);
      ReadAnswers(d, |pre|, n + 1, r, now, minTtl, filter) ==
        match filter(Seen(ip))
        case None => ReadAnswers(d, |pre| + 12, n, r, now, minTtl, filter)
        case Some(other) =>
          if To4(ip).None? then ReadAnswers(d, end, n, r.(ipv6 := WithAddresses(r.ipv6, [other], expires)), now, minTtl, filter)
          else if To4(other).None? then ReadAnswers(d, |pre| + 12, n, r, now, minTtl, filter)
          else ReadAnswers(d, end, n, r.(ipv4 := WithAddresses(r.ipv4, [To4(other).value], expires)), now, minTtl, filter)
  {
    hide RecordHead, ReadFields;
    var ip4 := To4(ip);
    var head := if ip4.Some? then RecordHead(1, ttl, 4) else RecordHead(28, ttl, 16);
    var address := if ip4.Some? then ip4.value else ip;
    var d := pre + AnswerOf(ip, ttl) + more;
    assert d == pre + head + (address + more);
    HeadRead(pre, if ip4.Some? then 1 else 28, ttl, if ip4.Some? then 4 else 16, address + more);
    assert d[|pre| + 12..|pre| + 12 + |address|] == address;
    FourBytes(address, address);
  }

  /** A record that is neither an address nor a service record is passed over, whatever it holds. */
  lemma OtherAnswer(pre: bytes, rtype: byte, ttl: nat, data: bytes, more: bytes, n: nat, r: Records, now: int, minTtl: nat, filter: Filter)
    requires ttl < 0x1_0000_0000 && |data| < 0x1_0000 && rtype != 1 && rtype != 28 && rtype != 65
    ensures var d := pre + RecordHead(rtype, ttl, |data|) + data + more;
      ReadAnswers(d, |pre|, n + 1, r, now, minTtl, filter) == ReadAnswers(d, |pre| + 12 + |data|, n, r, now, minTtl, filter)
  {
    hide RecordHead, ReadFields;
    var d := pre + RecordHead(rtype, ttl, |data|) + data + more;
    assert d == pre + RecordHead(rtype, ttl, |data|) + (data + more);
    HeadRead(pre, rtype, ttl, |data|, data + more);
  }

  // ---- where the parameters end -------------------------------------------

  datatype SvcParam = SvcParam(key: nat, value: bytes)

  predicate Fits(ps: seq<SvcParam>) {
    forall k :: 0 <= k < |ps| ==> ps[k].key < 0x1_0000 && 0 < |ps[k].value| < 0x1_0000
  }

  function PrintParams(ps: seq<SvcParam>): (b: bytes) {
    if ps == [] then [] else Param(ps[0].key, ps[0].value) + PrintParams(ps[1..])
  }

  /**
   * The loop over the parameters does not know where its record ends: it goes on through everything that can be taken for
   * a parameter, up to the last four bytes of the message or to a length the message has no room for.
   */
  lemma {:induction false} ParamsRunOn(pre: bytes, ps: seq<SvcParam>, tail: bytes)
    requires Fits(ps)
    ensures var d, behind := pre + PrintParams(ps) + tail, |pre| + |PrintParams(ps)|;
      && (|tail| <= 4 ==> ParamsStop(d, |pre|) == behind)
      && (|tail| > 4 && 4 + U16(tail, 2) > |tail| ==> ParamsStop(d, |pre|) == behind + 4)
    decreases |ps|
  {
    hide Param, ParamsStop, U16;
    var d := pre + PrintParams(ps) + tail;
    if ps == [] {
      assert d == pre + tail;
      StopsHere(pre, tail);
    } else {
      var one, rest := Param(ps[0].key, ps[0].value), PrintParams(ps[1..]);
      assert d == pre + one + (rest + tail) == (pre + one) + rest + tail;
      OneParamStop(pre, ps[0].key, ps[0].value, rest + tail);
      ParamsRunOn(pre + one, ps[1..], tail);
    }
  }

  lemma StopsHere(pre: bytes, tail: bytes)
    ensures |tail| <= 4 ==> ParamsStop(pre + tail, |pre|) == |pre|
    ensures |tail| > 4 && 4 + U16(tail, 2) > |tail| ==> ParamsStop(pre + tail, |pre|) == |pre| + 4
  {
    var d := pre + tail;
    if |tail| > 4 {
      assert d[|pre| + 2] == tail[2] && d[|pre| + 3] == tail[3];
    }
  }

  lemma OneParamStop(pre: bytes, key: nat, value: bytes, more: bytes)
    requires 0 < |value| < 0x1_0000 && key < 0x1_0000
    ensures var d := pre + Param(key, value) + more; ParamsStop(d, |pre|) == ParamsStop(d, |pre| + |Param(key, value)|)
  {
    hide ToBE, ParamsStop;
    var l := ToBE(|value|, 2);
    var d := pre + Param(key, value) + more;
    assert d[|pre| + 2..|pre| + 4] == l;
    U16At(d, |pre| + 2, |value|);
    StopStep(d, |pre|);
  }

  lemma StopStep(d: bytes, off: nat)
    requires off + 4 < |d| && off + 4 + U16(d, off + 2) <= |d|
    ensures ParamsStop(d, off) == ParamsStop(d, off + 4 + U16(d, off + 2))
  {
  }

  /** A parameter of another kind changes nothing. */
  lemma OtherParam(pre: bytes, key: nat, value: bytes, more: bytes, r: Records, expires: int)
    requires value != [] && |value| < 0x1_0000 && key < 0x1_0000 && key !in {1, 4, 5, 6}
    ensures var d := pre + Param(key, value) + more;
      ReadParams(d, |pre|, r, expires) == ReadParams(d, |pre| + 4 + |value|, r, expires)
  {
    hide Param;
    ParamRead(pre, key, value, more, r, expires);
  }
}
