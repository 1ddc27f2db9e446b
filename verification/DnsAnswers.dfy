/** DNS answers (section 4.1.3 of RFC 1035, section 2.2 of RFC 9460): PackAnswers, BuildResponse and GetAnswers. */
module DnsAnswers {
  import opened Bytes
  import opened Buffers

  const TYPE_A: nat := 1
  const TYPE_AAAA: nat := 28
  const TYPE_HTTPS: nat := 65

  const ALPN_KEY: nat := 1
  const IPV4_KEY: nat := 4
  const ECH_KEY: nat := 5
  const IPV6_KEY: nat := 6

  // ---- records ------------------------------------------------------------

  const MAPPED_PREFIX: bytes := Zeros(10) + [0xff, 0xff]

  /** The four bytes of an IPv4 address, also where it is written as an IPv6 one. */
  function To4(ip: bytes): (r: Option<bytes>)
    ensures r.Some? ==> |r.value| == 4
  {
    if |ip| == 4 then Some(ip)
    else if |ip| == 16 && ip[..12] == MAPPED_PREFIX then Some(ip[12..])
    else None
  }

  function To16(ip: bytes): (r: bytes) {
    if |ip| == 4 then MAPPED_PREFIX + ip else ip
  }

  predicate Address(ip: bytes) {
    |ip| == 4 || |ip| == 16
  }

  predicate Addresses(ips: seq<bytes>) {
    forall k :: 0 <= k < |ips| ==> Address(ips[k])
  }

  /** Addresses and the second at which they expire. */
  datatype Hint = Hint(expires: int, addresses: seq<bytes>)

  /** The fields of DNSRecords that answers carry. */
  datatype Records = Records(
    https: bool, http2: bool, http3: bool, ipv4: Option<Hint>, ipv6: Option<Hint>, ech: bytes)

  const NO_RECORDS: Records := Records(false, false, false, None, None, [])

  // ---- packing addresses --------------------------------------------------

  /** What is left to live, as 32 unsigned bits: a hint past its time wraps around. */
  function TimeToLive(expires: int, now: int, minTtl: nat): (ttl: nat)
    requires minTtl < 0x1_0000_0000
    ensures minTtl <= ttl < 0x1_0000_0000
  {
    var ttl := if expires > 0 then (expires - now) % 0x1_0000_0000 else 0;
    if ttl < minTtl then minTtl else ttl
  }

  /** A record for the name of the question: owner, type, class, time to live, length. */
  function RecordHead(rtype: byte, ttl: nat, length: nat): (b: bytes)
    ensures |b| == 12
  {
    [0xc0, 0x0c, 0x00, rtype, 0x00, 0x01] + ToBE(ttl, 4) + ToBE(length, 2)
  }

  function AnswerOf(ip: bytes, ttl: nat): (b: bytes)
    requires Address(ip)
  {
    match To4(ip)
    case Some(ip4) => RecordHead(1, ttl, 4) + ip4
    case None => RecordHead(28, ttl, 16) + ip
  }

  function AnswersOf(ips: seq<bytes>, ttl: nat): (b: bytes)
    requires Addresses(ips)
  {
    if ips == [] then [] else AnswerOf(ips[0], ttl) + AnswersOf(ips[1..], ttl)
  }

  lemma AnswersStep(ips: seq<bytes>, ttl: nat, i: nat)
    requires Addresses(ips) && i < |ips|
    ensures AnswersOf(ips[i..], ttl) == AnswerOf(ips[i], ttl) + AnswersOf(ips[i + 1..], ttl)
  {
    assert ips[i..][0] == ips[i] && ips[i..][1..] == ips[i + 1..];
  }

  method AnswersLength(ips: seq<bytes>, ghost ttl: nat) returns (totalLen: nat)
    requires Addresses(ips)
    ensures totalLen == |AnswersOf(ips, ttl)|
  {
    hide RecordHead, AnswersOf;
    totalLen := 0;
    assert ips[0..] == ips;
    for i := 0 to |ips|
      invariant totalLen + |AnswersOf(ips[i..], ttl)| == |AnswersOf(ips, ttl)|
    {
      AnswersStep(ips, ttl, i);
      totalLen := totalLen + (if To4(ips[i]).Some? then 16 else 28);
    }
    NoAnswers(ips[|ips|..], ttl);
  }

  lemma NoAnswers(ips: seq<bytes>, ttl: nat)
    requires ips == []
    ensures AnswersOf(ips, ttl) == []
  {
  }

  method PutAnswer(out: array<byte>, at: nat, ip: bytes, ttl: nat) returns (next: nat)
    requires Address(ip) && at + |AnswerOf(ip, ttl)| <= out.Length
    modifies out
    ensures next == at + |AnswerOf(ip, ttl)|
    ensures out[..next] == old(out[..at]) + AnswerOf(ip, ttl)
  {
    hide RecordHead;
    ghost var done := out[..at];
    var ip4 := To4(ip);
    var head := if ip4.Some? then RecordHead(1, ttl, 4) else RecordHead(28, ttl, 16);
    var address := if ip4.Some? then ip4.value else ip;
    AppendTo(out, at, head);
    AppendTo(out, at + 12, address);
    assert done + head + address == done + (head + address);
    return at + 12 + |address|;
  }

  /** The lengths are added up first, then the buffer is filled record by record, to the last byte. */
  method PackA(ips: seq<bytes>, ttl: nat) returns (answers: bytes)
    requires Addresses(ips)
    ensures answers == AnswersOf(ips, ttl)
  {
    hide AnswerOf, AnswersOf;
    var totalLen := AnswersLength(ips, ttl);
    var buffer := new byte[totalLen](_ => 0);
    var length: nat := 0;
    assert buffer[..0] == [] && ips[0..] == ips && [] + AnswersOf(ips, ttl) == AnswersOf(ips, ttl);
    for i := 0 to |ips|
      invariant length + |AnswersOf(ips[i..], ttl)| == totalLen == buffer.Length
      invariant buffer[..length] + AnswersOf(ips[i..], ttl) == AnswersOf(ips, ttl)
    {
      AnswersStep(ips, ttl, i);
      ghost var done, one, more := buffer[..length], AnswerOf(ips[i], ttl), AnswersOf(ips[i + 1..], ttl);
      assert done + (one + more) == done + one + more;
      length := PutAnswer(buffer, length, ips[i], ttl);
    }
    NoAnswers(ips[|ips|..], ttl);
    assert buffer[..] == buffer[..totalLen];
    return buffer[..];
  }

  // ---- packing service parameters -----------------------------------------

  function Param(key: nat, value: bytes): (b: bytes)
    ensures |b| == 4 + |value|
  {
    ToBE(key, 2) + ToBE(|value|, 2) + value
  }

  function ParamIf(key: nat, value: bytes): (b: bytes)
    ensures |b| == if value == [] then 0 else 4 + |value|
  {
    if value == [] then [] else Param(key, value)
  }

  /** h3 is announced for http3, and h2 for https. */
  function AlpnValue(r: Records): (b: bytes) {
    (if r.http3 then [2, 0x68, 0x33] else []) + (if r.https then [2, 0x68, 0x32] else [])
  }

  function AddressesOf(h: Option<Hint>): (ips: seq<bytes>) {
    if h.Some? then h.value.addresses else []
  }

  predicate AllIPv4(ips: seq<bytes>) {
    forall k :: 0 <= k < |ips| ==> To4(ips[k]).Some?
  }

  function V4Value(ips: seq<bytes>): (b: bytes)
    requires AllIPv4(ips)
    ensures |b| == 4 * |ips|
  {
    if ips == [] then [] else To4(ips[0]).value + V4Value(ips[1..])
  }

  function V6Value(ips: seq<bytes>): (b: bytes)
    requires Addresses(ips)
    ensures |b| == 16 * |ips|
  {
    if ips == [] then [] else To16(ips[0]) + V6Value(ips[1..])
  }

  function Params(r: Records): (b: bytes)
    requires AllIPv4(AddressesOf(r.ipv4)) && Addresses(AddressesOf(r.ipv6))
  {
    ParamIf(ALPN_KEY, AlpnValue(r)) + ParamIf(IPV4_KEY, V4Value(AddressesOf(r.ipv4)))
    + ParamIf(ECH_KEY, r.ech) + ParamIf(IPV6_KEY, V6Value(AddressesOf(r.ipv6)))
  }

  /** The length of the parameters, known before any is written. */
  function ParamsLength(r: Records): (n: nat) {
    var alpn := |AlpnValue(r)|;
    var v4, v6 := |AddressesOf(r.ipv4)|, |AddressesOf(r.ipv6)|;
    (if alpn > 0 then 4 + alpn else 0) + (if v4 > 0 then 4 + v4 * 4 else 0)
    + (if |r.ech| > 0 then 4 + |r.ech| else 0) + (if v6 > 0 then 4 + v6 * 16 else 0)
  }

  function SvcAnswer(r: Records, minTtl: nat): (b: bytes)
    requires AllIPv4(AddressesOf(r.ipv4)) && Addresses(AddressesOf(r.ipv6))
  {
    RecordHead(65, minTtl, |Params(r)| + 3) + [0, 1, 0] + Params(r)
  }

  datatype Packed = Packed(count: nat, answers: bytes)

  /** One service record, or none where there is nothing to say or an address in the IPv4 list is not one. */
  function PackSvc(r: Records, minTtl: nat): (p: Packed)
    requires Addresses(AddressesOf(r.ipv6))
  {
    if ParamsLength(r) == 0 || !AllIPv4(AddressesOf(r.ipv4)) then Packed(0, []) else Packed(1, SvcAnswer(r, minTtl))
  }

  lemma ParamsSize(r: Records)
    requires AllIPv4(AddressesOf(r.ipv4)) && Addresses(AddressesOf(r.ipv6))
    ensures |Params(r)| == ParamsLength(r)
  {
    hide AlpnValue, Param;
  }

  /** The four parameters behind what is written already. */
  method PutParams(out: array<byte>, at: nat, r: Records, v4: bytes, v6: bytes)
    requires AllIPv4(AddressesOf(r.ipv4)) && Addresses(AddressesOf(r.ipv6))
    requires v4 == V4Value(AddressesOf(r.ipv4)) && v6 == V6Value(AddressesOf(r.ipv6))
    requires at + |Params(r)| == out.Length
    modifies out
    ensures out[..] == old(out[..at]) + Params(r)
  {
    hide V4Value, V6Value, AlpnValue, ParamIf, ToBE, AllIPv4, Addresses;
    ghost var done := out[..at];
    ghost var a, b, c, d := ParamIf(ALPN_KEY, AlpnValue(r)), ParamIf(IPV4_KEY, v4), ParamIf(ECH_KEY, r.ech), ParamIf(IPV6_KEY, v6);
    assert Params(r) == a + b + c + d;
    var length := PutParam(out, at, ALPN_KEY, AlpnValue(r));
    length := PutParam(out, length, IPV4_KEY, v4);
    length := PutParam(out, length, ECH_KEY, r.ech);
    length := PutParam(out, length, IPV6_KEY, v6);
    assert out[..] == out[..length];
    assert done + a + b + c + d == done + (a + b + c + d);
  }

  /** The buffer has the length computed beforehand and is filled to the last byte. */
  method PackService(r: Records, minTtl: nat) returns (p: Packed)
    requires Addresses(AddressesOf(r.ipv6)) && 15 + ParamsLength(r) < 0x1_0000
    ensures p == PackSvc(r, minTtl)
  {
    hide RecordHead, ParamsLength, Params, V4Value, V6Value;
    var totalLen := 15 + ParamsLength(r);
    if totalLen == 15 {
      return Packed(0, []);
    }
    var v4 := PackV4(AddressesOf(r.ipv4));
    if v4.None? {
      return Packed(0, []);
    }
    var v6 := PackV6(AddressesOf(r.ipv6));
    ParamsSize(r);
    var out := new byte[totalLen](_ => 0);
    ghost var head := RecordHead(65, minTtl, |Params(r)| + 3);
    assert out[..0] == [] && [] + head == head;
    AppendTo(out, 0, RecordHead(65, minTtl, totalLen - 12));
    AppendTo(out, 12, [0, 1, 0]);
    PutParams(out, 15, r, v4.value, v6);
    return Packed(1, out[..]);
  }

  /** Stops at the first address that is not IPv4. */
  method PackV4(ips: seq<bytes>) returns (packed: Option<bytes>)
    ensures packed.Some? <==> AllIPv4(ips)
    ensures packed.Some? ==> packed.value == V4Value(ips)
  {
    var done: bytes := [];
    for i := 0 to |ips|
      invariant AllIPv4(ips[..i]) && done == V4Value(ips[..i])
    {
      var ip4 := To4(ips[i]);
      if ip4.None? {
        return None;
      }
      V4Snoc(ips, i);
      done := done + ip4.value;
    }
    assert ips[..|ips|] == ips;
    return Some(done);
  }

  method PackV6(ips: seq<bytes>) returns (packed: bytes)
    requires Addresses(ips)
    ensures packed == V6Value(ips)
  {
    packed := [];
    assert ips[0..] == ips && [] + V6Value(ips) == V6Value(ips);
    for i := 0 to |ips|
      invariant packed + V6Value(ips[i..]) == V6Value(ips)
    {
      assert ips[i..][0] == ips[i] && ips[i..][1..] == ips[i + 1..];
      assert packed + To16(ips[i]) + V6Value(ips[i + 1..]) == packed + (To16(ips[i]) + V6Value(ips[i + 1..]));
      packed := packed + To16(ips[i]);
    }
  }

  lemma {:induction false} V4Snoc(ips: seq<bytes>, i: nat)
    requires i < |ips| && AllIPv4(ips[..i]) && To4(ips[i]).Some?
    ensures AllIPv4(ips[..i + 1]) && V4Value(ips[..i + 1]) == V4Value(ips[..i]) + To4(ips[i]).value
    decreases |ips|
  {
    assert ips[..i + 1] == ips[..i] + [ips[i]];
    if i > 0 {
      var rest := ips[1..];
      assert ips[..i][1..] == rest[..i - 1] && ips[..i + 1][1..] == rest[..i];
      V4Snoc(rest, i - 1);
    } else {
      assert ips[..1][1..] == [];
    }
  }

  method PutParam(out: array<byte>, at: nat, key: nat, value: bytes) returns (next: nat)
    requires at + |ParamIf(key, value)| <= out.Length
    modifies out
    ensures next == at + |ParamIf(key, value)|
    ensures out[..next] == old(out[..at]) + ParamIf(key, value)
  {
    hide ToBE;
    ghost var done := out[..at];
    if value == [] {
      assert done + [] == done;
      return at;
    }
    AppendTo(out, at, ToBE(key, 2));
    AppendTo(out, at + 2, ToBE(|value|, 2));
    AppendTo(out, at + 4, value);
    assert done + ToBE(key, 2) + ToBE(|value|, 2) + value == done + Param(key, value);
    return at + 4 + |value|;
  }
}
