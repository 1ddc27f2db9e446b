/** Reading DNS answers: GetNameOffset and GetAnswers. */
module DnsReading {
  import opened Bytes
  import opened ClientHello
  import opened DnsAnswers

  // ---- names --------------------------------------------------------------

  /** GetNameOffset: where a name ends, or 0; a length of 63 and more is taken for a compression pointer. */
  function NameEnd(d: bytes, off: nat): (end: nat)
    ensures end > 0 ==> off < end
    decreases |d| - off
  {
    if off >= |d| then 0
    else
      var length: nat := d[off];
      if length == 0 then off + 1
      else if length < 63 then
        if off + 1 + length + 2 > |d| then 0 else NameEnd(d, off + 1 + length)
      else off + 2
  }

  method FindNameEnd(d: bytes, start: nat) returns (end: nat)
    ensures end == NameEnd(d, start)
  {
    var off := start;
    while true
      invariant NameEnd(d, start) == NameEnd(d, off)
      decreases |d| - off
    {
      if off >= |d| {
        return 0;
      }
      var length: nat := d[off];
      off := off + 1;
      if length == 0 {
        return off;
      }
      if length < 63 {
        off := off + length;
        if off + 2 > |d| {
          return 0;
        }
      } else {
        return off + 1;
      }
    }
  }

  /** Behind n questions, or None where one cannot be read. */
  function QuestionsEnd(d: bytes, off: nat, n: nat): (end: Option<nat>)
    decreases n
  {
    if n == 0 then Some(off)
    else if NameEnd(d, off) == 0 then None
    else QuestionsEnd(d, NameEnd(d, off) + 4, n - 1)
  }

  // ---- service parameters -------------------------------------------------

  const H1: bytes := [0x68, 0x74, 0x74, 0x70, 0x2f, 0x31, 0x2e, 0x31]
  const H2: bytes := [0x68, 0x32]
  const H3: bytes := [0x68, 0x33]

  function WithAlpn(r: Records, alpn: bytes): (r': Records) {
    r.(https := r.https || alpn == H1, http2 := r.http2 || alpn == H2, http3 := r.http3 || alpn == H3)
  }

  function ReadAlpns(d: bytes, off: nat, end: nat, r: Records): (r': Records)
    requires end <= |d|
    decreases |d| - off
  {
    if off + 1 >= end then r
    else
      var next := off + 1 + d[off] as int;
      if next > end then r else ReadAlpns(d, next, end, WithAlpn(r, d[off + 1..next]))
  }

  /** Addresses of `size` bytes up to `end`, or None where the last one leaves the message. */
  function ReadAddresses(d: bytes, off: nat, end: nat, size: nat): (ips: Option<seq<bytes>>)
    requires size > 0
    decreases if off < end then end - off else 0
  {
    if off >= end then Some([])
    else if off + size > |d| then None
    else
      match ReadAddresses(d, off + size, end, size)
      case None => None
      case Some(rest) => Some([To16(d[off..off + size])] + rest)
  }

  /** What one parameter adds; None where the source would index past the message. */
  function WithParam(d: bytes, key: nat, off: nat, end: nat, r: Records, expires: int): (r': Option<Records>)
    requires off <= end <= |d|
  {
    if key == ALPN_KEY then Some(ReadAlpns(d, off, end, r))
    else if key == IPV4_KEY then
      match ReadAddresses(d, off, end, 4)
      case None => None
      case Some(ips) => Some(r.(ipv4 := Some(Hint(expires, ips))))
    else if key == ECH_KEY then Some(r.(ech := d[off..end]))
    else if key == IPV6_KEY then
      match ReadAddresses(d, off, end, 16)
      case None => None
      case Some(ips) => Some(r.(ipv6 := Some(Hint(expires, ips))))
    else Some(r)
  }

  function ReadParams(d: bytes, off: nat, r: Records, expires: int): (r': Option<Records>)
    decreases |d| - off
  {
    if off + 4 >= |d| then Some(r)
    else
      var end := off + 4 + U16(d, off + 2);
      if end > |d| then Some(r)
      else
        match WithParam(d, U16(d, off), off + 4, end, r, expires)
        case None => None
        case Some(next) => ReadParams(d, end, next, expires)
  }

  // ---- answers ------------------------------------------------------------

  function WithAddress(h: Option<Hint>, ip: bytes, expires: int): (h': Option<Hint>) {
    match h
    case None => Some(Hint(expires, [ip]))
    case Some(hint) => Some(Hint(hint.expires, hint.addresses + [ip]))
  }

  /** The fixed fields of a record behind its owner name. */
  datatype Fields = Fields(rtype: nat, ttl: nat, length: nat, data: nat)

  function ReadFields(d: bytes, off: nat): (f: Option<Fields>)
    ensures f.Some? ==> f.value.data <= |d|
  {
    var end := NameEnd(d, off);
    if end == 0 || end + 10 > |d| then None
    else Some(Fields(U16(d, end), BE(d[end + 4..end + 8]), U16(d, end + 8), end + 10))
  }

  /** What the options make of an address: dropped where it is in the bad subnet, or put behind a NAT64 prefix. */
  type Filter = bytes -> Option<bytes>

  const NO_FILTER: Filter := ip => Some(ip)

  function FilteredA(filter: Filter, ip: bytes): (r: Option<bytes>) {
    match filter(To16(ip))
    case None => None
    case Some(other) => To4(other)
  }

  /**
   * n answers from off on; a record cut off ends the reading, with what was read before it. Behind an address that is
   * filtered out the source goes on at the address itself.
   */
  function ReadAnswers(d: bytes, off: nat, n: nat, r: Records, now: int, minTtl: nat, filter: Filter): (r': Option<Records>)
    decreases n
  {
    if n == 0 then Some(r)
    else
      match ReadFields(d, off)
      case None => Some(r)
      case Some(f) =>
        var expires := (if f.ttl < minTtl then minTtl else f.ttl) + now;
        if f.rtype == TYPE_A then
          if f.data + 4 > |d| then Some(r)
          else
            match FilteredA(filter, d[f.data..f.data + 4])
            case None => ReadAnswers(d, f.data, n - 1, r, now, minTtl, filter)
            case Some(ip4) =>
              ReadAnswers(d, f.data + f.length, n - 1, r.(ipv4 := WithAddress(r.ipv4, ip4, expires)), now, minTtl, filter)
        else if f.rtype == TYPE_AAAA then
          if f.data + 16 > |d| then Some(r)
          else
            match filter(d[f.data..f.data + 16])
            case None => ReadAnswers(d, f.data, n - 1, r, now, minTtl, filter)
            case Some(ip) =>
              ReadAnswers(d, f.data + f.length, n - 1, r.(ipv6 := WithAddress(r.ipv6, ip, expires)), now, minTtl, filter)
        else if f.rtype == TYPE_HTTPS then
          match ReadParams(d, f.data + 3, r, expires)
          case None => None
          case Some(next) => ReadAnswers(d, ParamsStop(d, f.data + 3) + f.length, n - 1, next, now, minTtl, filter)
        else ReadAnswers(d, f.data + f.length, n - 1, r, now, minTtl, filter)
  }

  /** Where the loop over the parameters leaves off: the source goes on from there, not from the end of the record. */
  function ParamsStop(d: bytes, off: nat): (stop: nat)
    decreases |d| - off
  {
    if off + 4 >= |d| then off
    else
      var end := off + 4 + U16(d, off + 2);
      if end > |d| then off + 4 else ParamsStop(d, end)
  }

  /** GetAnswers: what the response adds to the records. */
  function GetAnswers(d: bytes, r: Records, now: int, minTtl: nat, filter: Filter): (r': Option<Records>)
  {
    if |d| < 12 || U16(d, 6) == 0 then Some(r)
    else
      match QuestionsEnd(d, 12, U16(d, 4))
      case None => Some(r)
      case Some(off) => ReadAnswers(d, off, U16(d, 6), r, now, minTtl, filter)
  }

  // ---- the object ---------------------------------------------------------

  class DNSRecords {
    var https: bool
    var http2: bool
    var http3: bool
    var ipv4: Option<Hint>
    var ipv6: Option<Hint>
    var ech: bytes

    function State(): (r: Records)
      reads this
    {
      Records(https, http2, http3, ipv4, ipv6, ech)
    }

    constructor ()
      ensures State() == NO_RECORDS
    {
      https, http2, http3, ipv4, ipv6, ech := false, false, false, None, None, [];
    }

    method AddAlpns(d: bytes, start: nat, end: nat)
      requires end <= |d|
      modifies this
      ensures State() == ReadAlpns(d, start, end, old(State()))
    {
      var off := start;
      while off + 1 < end
        invariant ReadAlpns(d, start, end, old(State())) == ReadAlpns(d, off, end, State())
        decreases |d| - off
      {
        var next := off + 1 + d[off] as int;
        if next > end {
          return;
        }
        var alpn := d[off + 1..next];
        if alpn == H1 {
          https := true;
        } else if alpn == H2 {
          http2 := true;
        } else if alpn == H3 {
          http3 := true;
        }
        off := next;
      }
    }

    /** ok is false where the source would index past the message. */
    method AddParams(d: bytes, start: nat, expires: int) returns (ok: bool, stop: nat)
      modifies this
      ensures ok <==> ReadParams(d, start, old(State()), expires).Some?
      ensures ok ==> Some(State()) == ReadParams(d, start, old(State()), expires) && stop == ParamsStop(d, start)
    {
      hide ReadAlpns, ReadAddresses;
      var off := start;
      while off + 4 < |d|
        invariant ReadParams(d, start, old(State()), expires) == ReadParams(d, off, State(), expires)
        invariant ParamsStop(d, start) == ParamsStop(d, off)
        decreases |d| - off
      {
        var key, length := U16(d, off), U16(d, off + 2);
        off := off + 4;
        var end := off + length;
        if end > |d| {
          return true, off;
        }
        if key == ALPN_KEY {
          AddAlpns(d, off, end);
        } else if key == IPV4_KEY {
          var ips := CollectAddresses(d, off, end, 4);
          if ips.None? {
            return false, off;
          }
          ipv4 := Some(Hint(expires, ips.value));
        } else if key == ECH_KEY {
          ech := d[off..end];
        } else if key == IPV6_KEY {
          var ips := CollectAddresses(d, off, end, 16);
          if ips.None? {
            return false, off;
          }
          ipv6 := Some(Hint(expires, ips.value));
        }
        off := end;
      }
      return true, off;
    }

    method AddAnswers(d: bytes, start: nat, answers: nat, now: int, minTtl: nat, filter: Filter) returns (ok: bool)
      modifies this
      ensures ok <==> ReadAnswers(d, start, answers, old(State()), now, minTtl, filter).Some?
      ensures ok ==> Some(State()) == ReadAnswers(d, start, answers, old(State()), now, minTtl, filter)
    {
      hide ReadParams, ParamsStop, ReadFields;
      var off: nat := start;
      for i := 0 to answers
        invariant ReadAnswers(d, start, answers, old(State()), now, minTtl, filter)
               == ReadAnswers(d, off, answers - i, State(), now, minTtl, filter)
      {
        var fields := ParseFields(d, off);
        if fields.None? {
          return true;
        }
        var Fields(rtype, ttl, length, data) := fields.value;
        if ttl < minTtl {
          ttl := minTtl;
        }
        off := data;
        if rtype == TYPE_A {
          if data + 4 > |d| {
            return true;
          }
          var ip4 := FilteredA(filter, d[data..data + 4]);
          if ip4.None? {
            continue;
          }
          ipv4 := WithAddress(ipv4, ip4.value, ttl + now);
        } else if rtype == TYPE_AAAA {
          if data + 16 > |d| {
            return true;
          }
          var ip := filter(d[data..data + 16]);
          if ip.None? {
            continue;
          }
          ipv6 := WithAddress(ipv6, ip.value, ttl + now);
        } else if rtype == TYPE_HTTPS {
          var fine, stop := AddParams(d, data + 3, ttl + now);
          if !fine {
            return false;
          }
          off := stop;
        }
        off := off + length;
      }
      return true;
    }

    method Get(d: bytes, now: int, minTtl: nat, filter: Filter) returns (ok: bool)
      modifies this
      ensures ok <==> GetAnswers(d, old(State()), now, minTtl, filter).Some?
      ensures ok ==> Some(State()) == GetAnswers(d, old(State()), now, minTtl, filter)
    {
      hide ReadAnswers, NameEnd;
      if |d| < 12 || U16(d, 6) == 0 {
        return true;
      }
      var off: nat := 12;
      var questions := U16(d, 4);
      for i := 0 to questions
        invariant State() == old(State())
        invariant QuestionsEnd(d, 12, questions) == QuestionsEnd(d, off, questions - i)
      {
        var end := FindNameEnd(d, off);
        if end == 0 {
          return true;
        }
        off := end + 4;
      }
      ok := AddAnswers(d, off, U16(d, 6), now, minTtl, filter);
    }
  }

  method ParseFields(d: bytes, off: nat) returns (f: Option<Fields>)
    ensures f == ReadFields(d, off)
  {
    hide BE, NameEnd;
    var end := FindNameEnd(d, off);
    if end == 0 || end + 2 > |d| {
      return None;
    }
    var rtype := U16(d, end);
    if end + 8 > |d| {
      return None;
    }
    var ttl := BE(d[end + 4..end + 8]);
    if end + 10 > |d| {
      return None;
    }
    return Some(Fields(rtype, ttl, U16(d, end + 8), end + 10));
  }

  method CollectAddresses(d: bytes, start: nat, end: nat, size: nat) returns (ips: Option<seq<bytes>>)
    requires size > 0
    ensures ips == ReadAddresses(d, start, end, size)
  {
    var done: seq<bytes> := [];
    var off := start;
    ghost var spec := ReadAddresses(d, start, end, size);
    assert spec.Some? ==> [] + spec.value == spec.value;
    while off < end
      invariant spec == match ReadAddresses(d, off, end, size) case None => None case Some(rest) => Some(done + rest)
      decreases if off < end then end - off else 0
    {
      if off + size > |d| {
        return None;
      }
      ghost var rest := ReadAddresses(d, off + size, end, size);
      var ip := To16(d[off..off + size]);
      assert rest.Some? ==> done + ([ip] + rest.value) == done + [ip] + rest.value;
      done := done + [ip];
      off := off + size;
    }
    assert done + [] == done;
    return Some(done);
  }
}
