/** The parts of a TLS ClientHello the rewriter looks at: clientHelloComplete and sniHostNameRange. */
module ClientHello {
  import opened Bytes

  datatype Range = Range(offset: nat, length: nat)

  function U16(h: bytes, off: nat): (v: nat)
    requires off + 2 <= |h|
    ensures v < 0x1_0000
  {
    0x100 * (h[off] as int) + h[off + 1] as int
  }

  function ClientHelloComplete(h: bytes): (complete: bool)
  {
    |h| >= 4 && h[0] == 0x01 && |h| >= 4 + 0x1_0000 * (h[1] as int) + 0x100 * (h[2] as int) + h[3] as int
  }

  /** The extension list, if the fields before it are there; it is cut at the end of the bytes at hand. */
  function ExtensionsRange(h: bytes): (r: Option<Range>)
    ensures r.Some? ==> 0 < r.value.offset && r.value.offset + r.value.length <= |h|
  {
    var o0 := 38;
    if o0 + 1 > |h| || h[0] != 0x01 then None
    else
      var o1 := o0 + 1 + h[o0];
      if o1 + 2 > |h| then None
      else
        var o2 := o1 + 2 + U16(h, o1);
        if o2 + 1 > |h| then None
        else
          var o3 := o2 + 1 + h[o2];
          if o3 + 2 > |h| then None
          else
            var start := o3 + 2;
            var end := start + U16(h, o3);
            Some(Range(start, (if end > |h| then |h| else end) - start))
  }

  function SniInExtensions(h: bytes, offset: nat, end: nat): (r: Option<Range>)
    requires end <= |h|
    ensures r.Some? ==> offset < r.value.offset && r.value.length > 0 && r.value.offset + r.value.length <= end
    decreases |h| - offset
  {
    if offset + 4 > end then None
    else
      var extType, extLength := U16(h, offset), U16(h, offset + 2);
      var start := offset + 4;
      var extEnd := start + extLength;
      if extEnd > end then None
      else if extType == 0 && extLength >= 5 then
        var nameLength := U16(h, start + 3);
        if nameLength > 0 && start + 5 + nameLength <= extEnd then Some(Range(start + 5, nameLength)) else None
      else SniInExtensions(h, extEnd, end)
  }

  /** Where the host name of the server_name extension stands. */
  function SniHostNameRange(h: bytes): (r: Option<Range>)
    ensures r.Some? ==> 0 < r.value.offset && r.value.length > 0 && r.value.offset + r.value.length <= |h|
  {
    match ExtensionsRange(h)
    case None => None
    case Some(e) => SniInExtensions(h, e.offset, e.offset + e.length)
  }

  /** A host name found in a prefix of the stream is found at the same place when more has arrived. */
  lemma SniStable(h: bytes, more: bytes)
    requires SniHostNameRange(h).Some?
    ensures SniHostNameRange(h + more) == SniHostNameRange(h)
  {
    var e := ExtensionsRange(h).value;
    var e' := ExtensionsRange(h + more).value;
    SniInExtensionsStable(h, more, e.offset, e.offset + e.length, e'.offset + e'.length);
  }

  lemma {:induction false} SniInExtensionsStable(h: bytes, more: bytes, offset: nat, end: nat, end': nat)
    requires end <= |h| && end <= end' <= |h| + |more|
    requires SniInExtensions(h, offset, end).Some?
    ensures SniInExtensions(h + more, offset, end') == SniInExtensions(h, offset, end)
    decreases |h| - offset
  {
    var extType, extLength := U16(h, offset), U16(h, offset + 2);
    if !(extType == 0 && extLength >= 5) {
      SniInExtensionsStable(h, more, offset + 4 + extLength, end, end');
    }
  }

  method FindSni(h: bytes) returns (r: Option<Range>)
    ensures r == SniHostNameRange(h)
  {
    var extensions := ExtensionsRange(h);
    if extensions.None? {
      return None;
    }
    var offset := extensions.value.offset;
    var end := offset + extensions.value.length;
    while offset + 4 <= end
      invariant end <= |h|
      invariant SniHostNameRange(h) == SniInExtensions(h, offset, end)
      decreases end - offset
    {
      var extType := U16(h, offset);
      var extLength := U16(h, offset + 2);
      var start := offset + 4;
      var extEnd := start + extLength;
      if extEnd > end {
        return None;
      }
      if extType == 0 && extLength >= 5 {
        var nameLength := U16(h, start + 3);
        if nameLength > 0 && start + 5 + nameLength <= extEnd {
          return Some(Range(start + 5, nameLength));
        }
        return None;
      }
      offset := extEnd;
    }
    return None;
  }
}
