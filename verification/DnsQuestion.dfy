/** DNS questions (sections 3.1 and 4.1.2 of RFC 1035): PackQName, PackRequest and GetQName. */
module DnsQuestion {
  import opened Bytes
  import opened ClientHello
  import opened Buffers
  import opened DnsAnswers

  const DOT: byte := 0x2e
  const MAX_LABEL: nat := 63
  const MAX_NAME: nat := 255

  // ---- names --------------------------------------------------------------

  /** The length of the first label. */
  function DotAt(name: bytes): (n: nat)
    ensures n <= |name| && (n < |name| ==> name[n] == DOT)
    ensures forall i :: 0 <= i < n ==> name[i] != DOT
  {
    if name == [] || name[0] == DOT then 0 else 1 + DotAt(name[1..])
  }

  /** What is left of a length in a byte. */
  function LowByte(n: nat): (b: byte)
    ensures n < 256 ==> b == n
  {
    n % 256
  }

  /** The labels, each behind its length, then a zero byte. */
  function Wire(name: bytes): (w: bytes)
    ensures |w| == |name| + 2
  {
    var n := DotAt(name);
    [LowByte(n)] + name[..n] + (if n == |name| then [0] else Wire(name[n + 1..]))
  }

  /** Every label has 1 to 63 bytes. */
  predicate Labels(name: bytes)
    decreases |name|
  {
    var n := DotAt(name);
    1 <= n <= MAX_LABEL && (n < |name| ==> Labels(name[n + 1..]))
  }

  lemma DotUnique(name: bytes, n: nat)
    requires n <= |name| && (n < |name| ==> name[n] == DOT) && forall i :: 0 <= i < n ==> name[i] != DOT
    ensures DotAt(name) == n
  {
    var m := DotAt(name);
    assert m < |name| ==> name[m] == DOT;
    assert n < |name| ==> name[n] == DOT;
  }

  /** The buffer while position i is looked at: the labels before o are done, the one from o on still lacks its length. */
  ghost predicate Packing(q: bytes, name: bytes, o: nat, i: nat) {
    && o < i <= |name| + 1 && |q| == |name| + 2
    && (forall j :: o < j <= |name| ==> q[j] == name[j - 1])
    && (forall j :: o <= j < i - 1 ==> name[j] != DOT)
    && Wire(name) == q[..o] + Wire(name[o..])
  }

  lemma PackDot(q: bytes, name: bytes, o: nat, i: nat)
    requires Packing(q, name, o, i) && i <= |name| && q[i] == DOT
    ensures Packing(q[o := LowByte(i - 1 - o)], name, i, i + 1)
  {
    hide Wire, LowByte;
    var l := i - 1 - o;
    LabelDone(name, o, l);
    var q' := q[o := LowByte(l)];
    var part := name[o..i - 1];
    assert q'[..i] == q[..o] + [LowByte(l)] + part;
    assert q[..o] + ([LowByte(l)] + part + Wire(name[i..])) == q'[..i] + Wire(name[i..]);
  }

  lemma PackLast(q: bytes, name: bytes, o: nat)
    requires Packing(q, name, o, |name| + 1)
    ensures q[o := LowByte(|name| - o)] == Unended(name) + [q[|name| + 1]]
  {
    hide Wire, LowByte;
    var l := |name| - o;
    var last := q[|name| + 1];
    LabelDone(name, o, l);
    NameBehind(q, name, o);
    SetByte(q, o, LowByte(l), name[o..o + l], [last]);
    var body := q[..o] + ([LowByte(l)] + name[o..o + l]);
    assert Wire(name) == body + [0];
    assert q[o := LowByte(l)] == body + [last];
  }

  /** The labels of a name without the zero byte behind them. */
  function Unended(name: bytes): (w: bytes)
    ensures |w| == |name| + 1
  {
    Wire(name)[..|name| + 1]
  }

  lemma {:induction false} WireEnds(name: bytes)
    ensures Wire(name) == Unended(name) + [0]
    decreases |name|
  {
    var n := DotAt(name);
    if n < |name| {
      WireEnds(name[n + 1..]);
    }
    assert Wire(name)[|name| + 1] == 0;
  }

  /**
   * The name as it is packed: the source counts characters, so of a name with fewer characters than bytes only as many
   * bytes become labels, and the byte behind them stands where the final zero should be.
   */
  function PackedName(name: bytes, runes: nat): (q: bytes)
    requires runes <= |name|
    ensures |q| == runes + 2
  {
    Unended(name[..runes]) + [if runes < |name| then name[runes] else 0]
  }

  lemma NameBehind(q: bytes, name: bytes, o: nat)
    requires Packing(q, name, o, |name| + 1)
    ensures q[o + 1..] == name[o..o + (|name| - o)] + [q[|name| + 1]]
  {
    hide Wire;
  }

  lemma SetByte(q: bytes, o: nat, b: byte, part: bytes, rest: bytes)
    requires o < |q| && q[o + 1..] == part + rest
    ensures q[o := b] == q[..o] + ([b] + part + rest)
  {
    assert q[o := b] == q[..o] + [b] + q[o + 1..];
    assert q[..o] + [b] + (part + rest) == q[..o] + ([b] + part + rest);
  }

  /**
   * The name, of so many characters, is copied behind a first length byte as far as the buffer goes; then every dot
   * becomes the length of the label behind it.
   */
  method PackQName(name: bytes, runes: nat) returns (q: array<byte>)
    requires runes <= |name|
    ensures fresh(q) && q[..] == PackedName(name, runes)
    ensures runes == |name| ==> q[..] == Wire(name)
  {
    hide Wire, Unended, LowByte;
    var length := runes + 1;
    ghost var cut := name[..runes];
    q := new byte[length + 1](_ => 0);
    CopyInto(q, 1, name[..if runes < |name| then length else runes]);
    ghost var last := q[length];
    assert last == if runes < |name| then name[runes] else 0;
    StartPacking(q[..], cut);
    var o: nat, l: nat := 0, 0;
    for i := 1 to length
      invariant Packing(q[..], cut, o, i) && l == i - 1 - o && q[length] == last
    {
      if q[i] == DOT {
        PackDot(q[..], cut, o, i);
        ghost var next := q[..][o := LowByte(l)];
        q[o] := LowByte(l);
        assert q[..] == next;
        l := 0;
        o := i;
      } else {
        l := l + 1;
      }
    }
    PackLast(q[..], cut, o);
    ghost var packed := q[..][o := LowByte(l)];
    q[o] := LowByte(l);
    assert q[..] == packed;
    WholePacked(name);
  }

  lemma StartPacking(q: bytes, name: bytes)
    requires |q| == |name| + 2 && forall j :: 0 < j <= |name| ==> q[j] == name[j - 1]
    ensures Packing(q, name, 0, 1)
  {
    hide Wire;
    assert q[..0] == [] && name[0..] == name && [] + Wire(name) == Wire(name);
  }

  lemma WholePacked(name: bytes)
    ensures PackedName(name, |name|) == Wire(name)
  {
    hide Wire, Unended;
    WireEnds(name);
    assert name[..|name|] == name;
  }

  /** The label that starts at o, when it is known to have l bytes. */
  lemma LabelDone(name: bytes, o: nat, l: nat)
    requires o + l <= |name| && (o + l < |name| ==> name[o + l] == DOT)
    requires forall j :: o <= j < o + l ==> name[j] != DOT
    ensures Wire(name[o..]) == [LowByte(l)] + name[o..o + l] + (if o + l == |name| then [0] else Wire(name[o + l + 1..]))
  {
    DotUnique(name[o..], l);
    assert name[o..][..l] == name[o..o + l];
    if o + l < |name| {
      assert name[o..][l + 1..] == name[o + l + 1..];
    }
  }

  // ---- requests -----------------------------------------------------------

  /** The client-subnet option (section 6 of RFC 7871) in its pseudo-record: 24 bits of an IPv4 address or 56 of an IPv6 one. */
  function SubnetRecord(ip: bytes): (b: bytes)
    requires Address(ip)
    ensures |b| >= 22
  {
    [0, 0, 41, 0x10, 0x00, 0, 0, 0x08, 0x00] +
    match To4(ip)
    case Some(ip4) => [0, 11, 0, 8, 0, 7, 0, 1, 24, 0] + ip4[..3]
    case None => [0, 15, 0, 8, 0, 11, 0, 2, 56, 0] + ip[..7]
  }

  function Subnet(ecs: Option<bytes>): (b: bytes)
    requires ecs.Some? ==> Address(ecs.value)
  {
    if ecs.Some? then SubnetRecord(ecs.value) else []
  }

  function Head(id: nat, ecs: Option<bytes>, qtype2: nat): (h: bytes)
    ensures |h| == 12
  {
    ToBE(id, 2) + [1, 0, 0, if qtype2 != 0 then 2 else 1] + Zeros(4) + [0, if ecs.Some? then 1 else 0]
  }

  /**
   * The questions, of class IN: one, or two for the same name, the first of which points to the name of the second.
   */
  function Questions(name: bytes, runes: nat, qtype: nat, qtype2: nat): (b: bytes)
    requires runes <= |name|
  {
    if qtype2 == 0 then PackedName(name, runes) + ToBE(qtype, 2) + [0, 1]
    else [0xc0, 0x12] + ToBE(qtype, 2) + [0, 1] + PackedName(name, runes) + ToBE(qtype2, 2) + [0, 1]
  }

  function Request(name: bytes, runes: nat, qtype: nat, id: nat, ecs: Option<bytes>, qtype2: nat): (r: bytes)
    requires runes <= |name| && (ecs.Some? ==> Address(ecs.value))
  {
    Head(id, ecs, qtype2) + Questions(name, runes, qtype, qtype2) + Subnet(ecs)
  }

  /** The buffer of 512 bytes must hold the request: the source indexes past it otherwise. */
  method PackRequest(name: bytes, runes: nat, qtype: nat, id: nat, ecs: Option<bytes>, qtype2: nat) returns (r: bytes)
    requires runes <= |name| && (ecs.Some? ==> Address(ecs.value))
    requires |Request(name, runes, qtype, id, ecs, qtype2)| <= 512
    ensures r == Request(name, runes, qtype, id, ecs, qtype2)
  {
    hide PackedName, SubnetRecord, ToBE, Zeros, Questions;
    var request := new byte[512](_ => 0);
    AppendTo(request, 0, ToBE(id, 2));
    AppendTo(request, 2, [1, 0]);
    AppendTo(request, 4, [0, if qtype2 != 0 then 2 else 1]);
    AppendTo(request, 6, Zeros(4));
    AppendTo(request, 10, [0, if ecs.Some? then 1 else 0]);
    assert request[..12] == Head(id, ecs, qtype2);
    var qname := PackQName(name, runes);
    var length := PutQuestions(request, name, runes, qname[..], qtype, qtype2);
    if ecs.Some? {
      AppendTo(request, length, [0, 0, 41, 0x10, 0x00, 0, 0, 0x08, 0x00]);
      length := length + 9;
      length := PutSubnet(request, length, ecs.value);
    }
    return request[..length];
  }

  method PutQuestions(request: array<byte>, ghost name: bytes, ghost runes: nat, qname: bytes, qtype: nat, qtype2: nat)
    returns (length: nat)
    requires runes <= |name| && qname == PackedName(name, runes)
    requires 12 + |Questions(name, runes, qtype, qtype2)| <= request.Length
    modifies request
    ensures length == 12 + |Questions(name, runes, qtype, qtype2)|
    ensures request[..length] == old(request[..12]) + Questions(name, runes, qtype, qtype2)
  {
    hide PackedName, ToBE;
    ghost var head := request[..12];
    ghost var t1, t2 := ToBE(qtype, 2), ToBE(qtype2, 2);
    if qtype2 == 0 {
      AppendTo(request, 12, qname);
      length := PutType(request, 12 + |qname|, qtype);
      GroupedOne(head, qname, t1);
    } else {
      AppendTo(request, 12, [0xc0, 0x12]);
      length := PutType(request, 14, qtype);
      AppendTo(request, length, qname);
      length := PutType(request, length + |qname|, qtype2);
      GroupedTwo(head, qname, t1, t2);
    }
  }

  /** A type, and the class IN. */
  method PutType(request: array<byte>, at: nat, qtype: nat) returns (length: nat)
    requires at + 4 <= request.Length
    modifies request
    ensures length == at + 4 && request[..length] == old(request[..at]) + (ToBE(qtype, 2) + [0, 1])
  {
    ghost var done := request[..at];
    AppendTo(request, at, ToBE(qtype, 2));
    AppendTo(request, at + 2, [0, 1]);
    assert done + ToBE(qtype, 2) + [0, 1] == done + (ToBE(qtype, 2) + [0, 1]);
    return at + 4;
  }

  lemma GroupedOne(head: bytes, qname: bytes, t: bytes)
    ensures head + qname + (t + [0, 1]) == head + (qname + t + [0, 1])
  {
  }

  lemma GroupedTwo(head: bytes, qname: bytes, t1: bytes, t2: bytes)
    ensures head + [0xc0, 0x12] + (t1 + [0, 1]) + qname + (t2 + [0, 1])
         == head + ([0xc0, 0x12] + t1 + [0, 1] + qname + t2 + [0, 1])
  {
  }

  /** The rest of the pseudo-record behind its fixed fields. */
  method PutSubnet(request: array<byte>, at: nat, ip: bytes) returns (length: nat)
    requires Address(ip) && 9 <= at && at - 9 + |SubnetRecord(ip)| <= request.Length
    requires at <= request.Length && request[at - 9..at] == [0, 0, 41, 0x10, 0x00, 0, 0, 0x08, 0x00]
    modifies request
    ensures length == at - 9 + |SubnetRecord(ip)|
    ensures request[..length] == old(request[..at - 9]) + SubnetRecord(ip)
  {
    ghost var done := request[..at - 9];
    ghost var fixed := request[at - 9..at];
    assert request[..at] == done + fixed;
    var ip4 := To4(ip);
    var fields: bytes := if ip4.Some? then [0, 11, 0, 8, 0, 7, 0, 1, 24, 0] else [0, 15, 0, 8, 0, 11, 0, 2, 56, 0];
    var bits := if ip4.Some? then ip4.value[..3] else ip[..7];
    AppendTo(request, at, fields);
    AppendTo(request, at + 10, bits);
    length := at + 10 + |bits|;
    assert done + fixed + fields + bits == done + (fixed + (fields + bits));
  }

  // ---- reading a question -------------------------------------------------

  datatype Question = Question(name: bytes, qtype: nat, end: nat)

  /** What GetQName returns where it finds no question. */
  const NO_QUESTION: Question := Question([], 0, 0)

  datatype NameRead = NameRead(name: bytes, next: nat)

  /** The labels behind the first one; wireLength counts the bytes of the name so far. */
  function LabelsFrom(buf: bytes, off: nat, name: bytes, wireLength: nat): (r: Option<NameRead>)
    decreases |buf| - off
  {
    if off >= |buf| then None
    else
      var length: nat := buf[off];
      var end := off + 1 + length;
      if length > MAX_LABEL then None
      else if length == 0 then
        if wireLength + 1 > MAX_NAME then None else Some(NameRead(name, off + 1))
      else if end > |buf| || wireLength + 1 + length >= MAX_NAME then None
      else LabelsFrom(buf, end, name + [DOT] + buf[off + 1..end], wireLength + 1 + length)
  }

  function GetQName(buf: bytes): (q: Question)
  {
    if |buf| < 13 then NO_QUESTION
    else
      var end := 13 + buf[12] as int;
      if buf[12] > MAX_LABEL || end > |buf| || end - 12 >= MAX_NAME then NO_QUESTION
      else
        match LabelsFrom(buf, end, buf[13..end], end - 12)
        case None => NO_QUESTION
        case Some(n) => if n.next + 4 > |buf| then NO_QUESTION else Question(n.name, U16(buf, n.next), n.next + 4)
  }

  method ReadQName(buf: bytes) returns (q: Question)
    ensures q == GetQName(buf)
  {
    if |buf| < 13 {
      return NO_QUESTION;
    }
    var length: nat := buf[12];
    var off := 13;
    var end := off + length;
    var wireLength: nat := end - 12;
    if length > MAX_LABEL || end > |buf| || wireLength >= MAX_NAME {
      return NO_QUESTION;
    }
    var name := buf[off..end];
    off := end;
    ghost var spec := LabelsFrom(buf, off, name, wireLength);
    while true
      invariant spec == LabelsFrom(buf, off, name, wireLength)
      decreases |buf| - off
    {
      if off >= |buf| {
        return NO_QUESTION;
      }
      length := buf[off];
      off := off + 1;
      wireLength := wireLength + 1;
      if length > MAX_LABEL {
        return NO_QUESTION;
      }
      if length == 0 {
        if wireLength > MAX_NAME {
          return NO_QUESTION;
        }
        break;
      }
      end := off + length;
      wireLength := wireLength + length;
      if end > |buf| || wireLength >= MAX_NAME {
        return NO_QUESTION;
      }
      name := name + [DOT] + buf[off..end];
      off := end;
    }
    assert spec == Some(NameRead(name, off));
    if off + 4 > |buf| {
      return NO_QUESTION;
    }
    return Question(name, U16(buf, off), off + 4);
  }

  // ---- the round trip -----------------------------------------------------

  /** A name read has no more bytes than the limit leaves room for. */
  lemma {:induction false} NameBound(buf: bytes, off: nat, name: bytes, wireLength: nat)
    ensures var r := LabelsFrom(buf, off, name, wireLength);
      r.Some? ==> |r.value.name| >= |name| && wireLength + (|r.value.name| - |name|) + 1 <= MAX_NAME
    decreases |buf| - off
  {
    if off < |buf| {
      var length: nat := buf[off];
      var end := off + 1 + length;
      if 0 < length <= MAX_LABEL && end <= |buf| && wireLength + 1 + length < MAX_NAME {
        NameBound(buf, end, name + [DOT] + buf[off + 1..end], wireLength + 1 + length);
      }
    }
  }

  lemma LabelRead(pre: bytes, part: bytes, more: bytes, read: bytes, wireLength: nat)
    requires 1 <= |part| <= MAX_LABEL
    ensures var buf := pre + [LowByte(|part|)] + part + more;
      LabelsFrom(buf, |pre|, read, wireLength) ==
        if wireLength + 1 + |part| >= MAX_NAME then None
        else LabelsFrom(buf, |pre| + 1 + |part|, read + [DOT] + part, wireLength + 1 + |part|)
  {
    var buf := pre + [LowByte(|part|)] + part + more;
    assert buf[|pre|] == |part|;
    assert buf[|pre| + 1..|pre| + 1 + |part|] == part;
  }

  lemma EndRead(pre: bytes, tail: bytes, read: bytes, wireLength: nat)
    ensures LabelsFrom(pre + [0] + tail, |pre|, read, wireLength)
         == if wireLength + 1 > MAX_NAME then None else Some(NameRead(read, |pre| + 1))
  {
    assert (pre + [0] + tail)[|pre|] == 0;
  }

  /** A label that is empty or too long ends the reading, or the name is too long anyway. */
  lemma OddLabel(buf: bytes, off: nat, name: bytes, read: bytes, wireLength: nat, next: nat)
    requires off < |buf| && buf[off] == LowByte(DotAt(name))
    requires DotAt(name) == 0 || DotAt(name) > MAX_LABEL
    ensures LabelsFrom(buf, off, read, wireLength) != Some(NameRead(read + [DOT] + name, next))
  {
    NameBound(buf, off, read, wireLength);
  }

  lemma LastLabelRead(pre: bytes, name: bytes, tail: bytes, read: bytes, wireLength: nat)
    requires 1 <= DotAt(name) <= MAX_LABEL && DotAt(name) == |name|
    ensures LabelsFrom(pre + Wire(name) + tail, |pre|, read, wireLength)
         == if wireLength + |Wire(name)| > MAX_NAME then None
            else Some(NameRead(read + [DOT] + name, |pre| + |Wire(name)|))
  {
    hide LabelsFrom, DotAt;
    var n := |name|;
    var pre' := pre + [LowByte(n)] + name;
    assert Wire(name) == [LowByte(n)] + name + [0] by {
      assert name[..n] == name;
    }
    assert pre + Wire(name) + tail == pre' + [0] + tail;
    assert pre + Wire(name) + tail == pre + [LowByte(n)] + name + ([0] + tail);
    LabelRead(pre, name, [0] + tail, read, wireLength);
    EndRead(pre', tail, read + [DOT] + name, wireLength + 1 + n);
  }

  lemma WireStep(name: bytes)
    ensures var n := DotAt(name);
      Wire(name) == [LowByte(n)] + name[..n] + (if n == |name| then [0] else Wire(name[n + 1..]))
  {
  }

  lemma OneLabelRead(pre: bytes, name: bytes, tail: bytes, read: bytes, wireLength: nat)
    requires 1 <= DotAt(name) <= MAX_LABEL && DotAt(name) < |name|
    ensures var n := DotAt(name);
      var pre' := pre + [LowByte(n)] + name[..n];
      LabelsFrom(pre + Wire(name) + tail, |pre|, read, wireLength)
         == if wireLength + 1 + n >= MAX_NAME then None
            else LabelsFrom(pre' + Wire(name[n + 1..]) + tail, |pre'|, read + [DOT] + name[..n], wireLength + 1 + n)
  {
    hide LabelsFrom, Wire, DotAt;
    WireStep(name);
    var n := DotAt(name);
    var part := name[..n];
    var more := Wire(name[n + 1..]);
    assert pre + Wire(name) + tail == (pre + [LowByte(n)] + part) + more + tail;
    assert pre + Wire(name) + tail == pre + [LowByte(n)] + part + (more + tail);
    LabelRead(pre, part, more + tail, read, wireLength);
  }

  /** The labels of a name are read back exactly if each has 1 to 63 bytes and all of them fit. */
  lemma {:induction false} LabelsReadBack(pre: bytes, name: bytes, tail: bytes, read: bytes, wireLength: nat)
    ensures LabelsFrom(pre + Wire(name) + tail, |pre|, read, wireLength)
              == Some(NameRead(read + [DOT] + name, |pre| + |Wire(name)|))
       <==> Labels(name) && wireLength + |Wire(name)| <= MAX_NAME
    decreases |name|
  {
    hide LabelsFrom, Wire, DotAt;
    var n := DotAt(name);
    if n == 0 || n > MAX_LABEL {
      FirstByteOf(pre, name, tail);
      OddLabel(pre + Wire(name) + tail, |pre|, name, read, wireLength, |pre| + |Wire(name)|);
    } else if n == |name| {
      LastLabelRead(pre, name, tail, read, wireLength);
    } else {
      OneLabelRead(pre, name, tail, read, wireLength);
      var part, rest := name[..n], name[n + 1..];
      LabelsReadBack(pre + [LowByte(n)] + part, rest, tail, read + [DOT] + part, wireLength + 1 + n);
      assert read + [DOT] + name == read + [DOT] + part + [DOT] + rest;
    }
  }

  lemma FirstByteOf(pre: bytes, name: bytes, tail: bytes)
    ensures (pre + Wire(name) + tail)[|pre|] == LowByte(DotAt(name))
  {
  }

  /** The first label is read apart from the others, and may be empty. */
  predicate Readable(name: bytes) {
    var n := DotAt(name);
    && n <= MAX_LABEL && |Wire(name)| <= MAX_NAME
    && (n < |name| ==> Labels(name[n + 1..]))
  }

  lemma QTypeRead(buf: bytes, at: nat, qtype: nat)
    requires at + 2 <= |buf| && buf[at..at + 2] == ToBE(qtype, 2) && qtype < 0x1_0000
    ensures U16(buf, at) == qtype
  {
    assert ToBE(qtype, 2) == [qtype / 256 % 256, qtype % 256];
    assert buf[at] == buf[at..at + 2][0] && buf[at + 1] == buf[at..at + 2][1];
  }

  lemma FirstLabel(head: bytes, name: bytes, tail: bytes)
    requires |head| == 12
    ensures var buf := head + Wire(name) + tail;
      var n := DotAt(name);
      && (n <= MAX_LABEL ==> buf[12] == n) && 13 + n < |buf| && buf[13..13 + n] == name[..n]
      && buf == (head + [LowByte(n)] + name[..n]) + (if n == |name| then [0] else Wire(name[n + 1..])) + tail
  {
    hide Wire, DotAt;
    WireStep(name);
  }

  /** The name is read from behind its first label exactly if the rest is readable. */
  lemma FirstRead(head: bytes, name: bytes, tail: bytes)
    requires |head| == 12 && DotAt(name) <= MAX_LABEL
    ensures LabelsFrom(head + Wire(name) + tail, 13 + DotAt(name), name[..DotAt(name)], 1 + DotAt(name))
              == Some(NameRead(name, 12 + |Wire(name)|))
       <==> Readable(name)
  {
    hide LabelsFrom, Wire, DotAt, Labels;
    FirstLabel(head, name, tail);
    var n := DotAt(name);
    var pre := head + [LowByte(n)] + name[..n];
    if n == |name| {
      assert name[..n] == name;
      EndRead(pre, tail, name, 1 + n);
    } else {
      var rest := name[n + 1..];
      assert name == name[..n] + [DOT] + rest;
      LabelsReadBack(pre, rest, tail, name[..n], 1 + n);
    }
  }

  lemma QuestionReadBack(head: bytes, name: bytes, qtype: nat, more: bytes)
    requires |head| == 12 && qtype < 0x1_0000
    ensures var r := head + Wire(name) + (ToBE(qtype, 2) + [0, 1] + more);
      GetQName(r) == Question(name, qtype, 16 + |Wire(name)|) <==> Readable(name)
  {
    hide LabelsFrom, Wire, Labels, LowByte, DotAt;
    var tail := ToBE(qtype, 2) + [0, 1] + more;
    var r := head + Wire(name) + tail;
    if DotAt(name) <= MAX_LABEL {
      FirstLabel(head, name, tail);
      FirstRead(head, name, tail);
      var at := 12 + |Wire(name)|;
      assert r[at..at + 2] == ToBE(qtype, 2);
      QTypeRead(r, at, qtype);
    } else {
      FirstByteOf(head, name, tail);
      LongFirstLabel(r, name);
    }
  }

  lemma LongFirstLabel(buf: bytes, name: bytes)
    requires |buf| > 12 && buf[12] == LowByte(DotAt(name)) && DotAt(name) > MAX_LABEL
    ensures GetQName(buf).name != name
  {
    var end := 13 + buf[12] as int;
    if buf[12] <= MAX_LABEL && end <= |buf| {
      NameBound(buf, end, buf[13..end], end - 12);
    }
  }

  /** A name read takes one byte more than it has behind where its first label ends. */
  lemma {:induction false} NameLength(buf: bytes, off: nat, name: bytes, wireLength: nat)
    ensures var r := LabelsFrom(buf, off, name, wireLength);
      r.Some? ==> r.value.next + |name| == off + 1 + |r.value.name|
    decreases |buf| - off
  {
    if off < |buf| {
      var length: nat := buf[off];
      var end := off + 1 + length;
      if 0 < length <= MAX_LABEL && end <= |buf| && wireLength + 1 + length < MAX_NAME {
        NameLength(buf, end, name + [DOT] + buf[off + 1..end], wireLength + 1 + length);
      }
    }
  }

  lemma QuestionLength(buf: bytes)
    ensures GetQName(buf).end > 0 ==> GetQName(buf).end == 18 + |GetQName(buf).name|
  {
    if |buf| >= 13 && buf[12] <= MAX_LABEL && 13 + buf[12] as int <= |buf| {
      var end := 13 + buf[12] as int;
      NameLength(buf, end, buf[13..end], end - 12);
    }
  }

  /**
   * The question of a request with one type, with or without a client subnet behind it, is read back, name, type and
   * length, exactly if the name has as many characters as bytes and its labels are readable: those behind the first of 1
   * to 63 bytes, the first of at most 63, and at most 255 bytes on the wire.
   */
  lemma RequestReadBack(name: bytes, runes: nat, qtype: nat, id: nat, ecs: Option<bytes>)
    requires qtype < 0x1_0000 && runes <= |name| && (ecs.Some? ==> Address(ecs.value))
    ensures GetQName(Request(name, runes, qtype, id, ecs, 0)) == Question(name, qtype, 18 + runes)
       <==> runes == |name| && Readable(name)
  {
    hide Wire, Readable, Subnet, GetQName, Unended;
    var r := Request(name, runes, qtype, id, ecs, 0);
    if runes == |name| {
      WholePacked(name);
      var tail := ToBE(qtype, 2) + [0, 1];
      assert r == Head(id, ecs, 0) + Wire(name) + (tail + Subnet(ecs));
      QuestionReadBack(Head(id, ecs, 0), name, qtype, Subnet(ecs));
    } else {
      QuestionLength(r);
    }
  }

  /** A request with two types is none this reader understands: its first name is a compression pointer. */
  lemma TwoTypesNotRead(name: bytes, runes: nat, qtype: nat, id: nat, ecs: Option<bytes>, qtype2: nat)
    requires runes <= |name| && (ecs.Some? ==> Address(ecs.value)) && qtype2 != 0
    ensures GetQName(Request(name, runes, qtype, id, ecs, qtype2)) == NO_QUESTION
  {
    hide Subnet, PackedName;
    var r := Request(name, runes, qtype, id, ecs, qtype2);
    assert r[12] == 0xc0;
  }

  /** In particular every ASCII name with labels of 1 to 63 bytes and at most 255 bytes on the wire is read back whole. */
  lemma OrdinaryNames(name: bytes, qtype: nat, id: nat)
    requires qtype < 0x1_0000 && Labels(name) && |Wire(name)| <= MAX_NAME
    ensures var r := Request(name, |name|, qtype, id, None, 0); GetQName(r) == Question(name, qtype, |r|)
  {
    RequestReadBack(name, |name|, qtype, id, None);
  }
}
