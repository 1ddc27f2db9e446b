/** TLS record fragmentation around the server name: GetSNI and TLSFragment. */
module TlsRecord {
  import opened Bytes
  import opened ClientHello
  import opened Buffers

  // ---- finding the server name --------------------------------------------

  /** What GetSNI returns: offset and length are 0 when there is no name; ech when the encrypted hello came before it. */
  datatype Sni = Sni(offset: nat, length: nat, ech: bool)

  const NO_SNI: Sni := Sni(0, 0, false)

  function SniFrom(h: bytes, offset: nat, end: nat, ech: bool): (s: Sni)
    requires end <= |h|
    decreases if offset < end then end - offset else 0
  {
    if offset >= end then Sni(0, 0, ech)
    else if offset + 4 > |h| then NO_SNI
    else
      var extType, extLength, start := U16(h, offset), U16(h, offset + 2), offset + 4;
      if extType == 0 then
        if start + 5 > |h| then Sni(0, 0, ech)
        else
          var length := U16(h, start + 3);
          if start + 5 + length >= |h| then Sni(0, 0, ech) else Sni(start + 5, length, ech)
      else SniFrom(h, start + extLength, end, ech || extType == 65037)
  }

  /** Where the extensions of the hello in this record start and end. */
  function Extensions(h: bytes): (r: Option<(nat, nat)>)
    ensures r.Some? ==> 49 <= r.value.0 && r.value.1 <= |h|
  {
    if 44 > |h| || h[0] != 0x16 || h[1] != 0x03 || h[2] >= 8 || |h| as int <= U16(h, 3) - 5 then None
    else
      var o1 := 44 + h[43] as int;
      if o1 + 2 > |h| then None
      else
        var o2 := o1 + 2 + U16(h, o1);
        if o2 >= |h| then None
        else
          var o3 := o2 + 1 + h[o2];
          if o3 + 4 > |h| then None
          else
            var end := o3 + 2 + U16(h, o3);
            if end > |h| then None else Some((o3 + 2, end))
  }

  function GetSNI(h: bytes): (s: Sni)
  {
    match Extensions(h)
    case None => NO_SNI
    case Some(e) => SniFrom(h, e.0, e.1, false)
  }

  method FindSNI(h: bytes) returns (s: Sni)
    ensures s == GetSNI(h)
  {
    var extensions := Extensions(h);
    if extensions.None? {
      return NO_SNI;
    }
    var offset, end := extensions.value.0, extensions.value.1;
    var ech := false;
    while offset < end
      invariant end <= |h|
      invariant GetSNI(h) == SniFrom(h, offset, end, ech)
      decreases if offset < end then end - offset else 0
    {
      if offset + 4 > |h| {
        return NO_SNI;
      }
      var extType, extLength := U16(h, offset), U16(h, offset + 2);
      offset := offset + 4;
      if extType == 0 {
        if offset + 5 > |h| {
          return Sni(0, 0, ech);
        }
        offset := offset + 3;
        var length := U16(h, offset);
        offset := offset + 2;
        if offset + length >= |h| {
          return Sni(0, 0, ech);
        }
        return Sni(offset, length, ech);
      } else if extType == 65037 {
        ech := true;
      }
      offset := offset + extLength;
    }
    return Sni(0, 0, ech);
  }

  lemma {:induction false} SniInside(h: bytes, offset: nat, end: nat, ech: bool)
    requires end <= |h|
    ensures var s := SniFrom(h, offset, end, ech);
      s.offset > 0 ==> offset + 9 <= s.offset && s.offset + s.length < |h|
    decreases if offset < end then end - offset else 0
  {
    if offset < end && offset + 4 <= |h| && U16(h, offset) != 0 {
      SniInside(h, offset + 4 + U16(h, offset + 2), end, ech || U16(h, offset) == 65037);
    }
  }

  // ---- fragmenting --------------------------------------------------------

  /** A record header copied from `kind`, its 16-bit length, and the payload. */
  function Record(kind: bytes, payload: bytes): (r: bytes)
    requires |kind| == 3
    ensures |r| == 5 + |payload|
  {
    kind + ToBE(|payload|, 2) + payload
  }

  /** The record as three: the cuts are at half of `size` and at `size`, counted from the start of the record. */
  function Fragmented(header: bytes, size: nat): (r: bytes)
    requires 10 <= size <= |header|
    ensures |r| == |header| + 10
  {
    var kind := header[..3];
    Record(kind, header[5..size / 2]) + Record(kind, header[size / 2..size]) + Record(kind, header[size..])
  }

  /** A record header and its payload, written behind what is already there. */
  method PutRecord(out: array<byte>, at: nat, kind: bytes, payload: bytes)
    requires |kind| == 3 && at + 5 + |payload| <= out.Length
    modifies out
    ensures out[..at + 5 + |payload|] == old(out[..at]) + Record(kind, payload)
  {
    ghost var done := out[..at];
    AppendTo(out, at, kind);
    AppendTo(out, at + 3, ToBE(|payload|, 2));
    AppendTo(out, at + 5, payload);
    assert done + Record(kind, payload) == done + kind + ToBE(|payload|, 2) + payload;
  }

  method TLSFragment(header: bytes, size: nat) returns (r: bytes)
    requires 10 <= size <= |header|
    ensures r == Fragmented(header, size)
  {
    hide Record;
    var first := size / 2;
    var out := new byte[|header| + 10](_ => 0);
    var kind := header[..3];
    ghost var r1, r2, r3 := Record(kind, header[5..first]), Record(kind, header[first..size]), Record(kind, header[size..]);
    assert out[..0] == [];
    PutRecord(out, 0, kind, header[5..first]);
    assert out[..first] == r1 by {
      assert [] + r1 == r1;
    }
    PutRecord(out, first, kind, header[first..size]);
    assert out[..size + 5] == r1 + r2;
    PutRecord(out, size + 5, kind, header[size..]);
    assert out[..|header| + 10] == r1 + r2 + r3;
    return out[..];
  }

  // ---- what the fragments mean --------------------------------------------

  datatype TlsRecord = TlsRecord(kind: bytes, payload: bytes)

  /** The records a peer reads (section 5.1 of RFC 8446): type and version, a length, so many bytes. */
  function Records(d: bytes): (rs: Option<seq<TlsRecord>>)
  {
    if d == [] then Some([])
    else if |d| < 5 || |d| < 5 + U16(d, 3) then None
    else
      var end := 5 + U16(d, 3);
      match Records(d[end..])
      case None => None
      case Some(rest) => Some([TlsRecord(d[..3], d[5..end])] + rest)
  }

  lemma RecordRead(kind: bytes, payload: bytes, rest: bytes)
    requires |kind| == 3 && |payload| < 0x1_0000
    ensures Records(Record(kind, payload) + rest) ==
      match Records(rest) case None => None case Some(rs) => Some([TlsRecord(kind, payload)] + rs)
  {
    var d := Record(kind, payload) + rest;
    LengthRead(d, |payload|);
    var end := 5 + |payload|;
    assert d[..3] == kind && d[5..end] == payload && d[end..] == rest;
  }

  lemma LengthRead(d: bytes, n: nat)
    requires |d| >= 5 && n < 0x1_0000 && d[3..5] == ToBE(n, 2)
    ensures U16(d, 3) == n
  {
    assert ToBE(n, 2) == [n / 256 % 256, n % 256];
    assert d[3] == d[3..5][0] && d[4] == d[3..5][1];
  }

  /** Cut anywhere it may be, the record is read as three records with the same payload in the same order. */
  lemma FragmentsRead(header: bytes, size: nat)
    requires 10 <= size <= |header| < 0x1_0000
    ensures Records(Fragmented(header, size)) == Some([
      TlsRecord(header[..3], header[5..size / 2]),
      TlsRecord(header[..3], header[size / 2..size]),
      TlsRecord(header[..3], header[size..])])
    ensures header[5..size / 2] + header[size / 2..size] + header[size..] == header[5..]
  {
    hide Records, Record;
    var kind := header[..3];
    var p1, p2, p3 := header[5..size / 2], header[size / 2..size], header[size..];
    var r1, r2, r3 := Record(kind, p1), Record(kind, p2), Record(kind, p3);
    assert Records([]) == Some([]) by {
      NoRecords();
    }
    RecordRead(kind, p3, []);
    assert r3 + [] == r3;
    RecordRead(kind, p2, r3);
    RecordRead(kind, p1, r2 + r3);
    assert r1 + r2 + r3 == r1 + (r2 + r3);
    var t1, t2, t3 := TlsRecord(kind, p1), TlsRecord(kind, p2), TlsRecord(kind, p3);
    assert Records(r3) == Some([t3]) by {
      assert [t3] + [] == [t3];
    }
    assert Records(r2 + r3) == Some([t2, t3]) by {
      assert [t2] + [t3] == [t2, t3];
    }
    assert [t1] + [t2, t3] == [t1, t2, t3];
  }

  lemma NoRecords()
    ensures Records([]) == Some([])
  {
  }

  /** Three records of the same kind, none empty, with the payload of the one record, the third starting at `size`. */
  ghost predicate InThree(header: bytes, size: nat, rs: seq<TlsRecord>) {
    && |rs| == 3 && |header| >= 5
    && (forall k :: 0 <= k < 3 ==> rs[k].kind == header[..3] && rs[k].payload != [])
    && rs[0].payload + rs[1].payload + rs[2].payload == header[5..]
    && 5 + |rs[0].payload| + |rs[1].payload| == size
  }

  lemma CutInThree(header: bytes, size: nat)
    requires 12 <= size < |header| < 0x1_0000
    ensures Records(Fragmented(header, size)).Some? && InThree(header, size, Records(Fragmented(header, size)).value)
  {
    hide Records, Fragmented;
    FragmentsRead(header, size);
  }

  /**
   * Where a server name was found, fragmenting at its middle gives three well-formed records, none empty, that fill the
   * output, carry the handshake bytes unchanged, and have a record boundary inside the name.
   */
  lemma NameIsCut(header: bytes)
    requires GetSNI(header).offset > 0 && |header| < 0x1_0000
    ensures var s := GetSNI(header);
      var size := s.offset + s.length / 2;
      && 12 <= size < |header|
      && s.offset <= size <= s.offset + s.length && (s.length >= 2 ==> s.offset < size < s.offset + s.length)
      && Records(Fragmented(header, size)).Some? && InThree(header, size, Records(Fragmented(header, size)).value)
  {
    hide SniFrom, Extensions, Records, Fragmented, InThree;
    var e := Extensions(header).value;
    SniInside(header, e.0, e.1, false);
    CutInThree(header, GetSNI(header).offset + GetSNI(header).length / 2);
  }
}
