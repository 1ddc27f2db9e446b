/** Gathering a client's Initial packets until its ClientHello can be read: quicInitialCollector. */
module Collector {
  import opened Bytes
  import opened Reassembly
  import opened ClientHello
  import opened Packet
  import opened Datagram

  datatype CollectorState = CollectorState(version: nat, dcid: bytes, expected: nat, buffer: Buffer)

  const NEW: CollectorState := CollectorState(0, [], 0, EMPTY)

  /** Larger than any packet number. */
  const NO_PN: nat := 0xffff_ffff_ffff_ffff

  datatype PacketResult = Refused(state: CollectorState) | Merged(state: CollectorState, pn: nat)

  /** The connection a packet is collected for: another version or connection ID starts afresh. */
  function For(st: CollectorState, h: Header): (at: CollectorState)
    requires Sound(st.buffer)
    ensures Sound(at.buffer)
  {
    if st.version != 0 && (h.version != st.version || h.dcid != st.dcid) then NEW else st
  }

  /** One Initial packet. A payload that contradicts the stream leaves what it wrote before the contradiction. */
  function AddPacket(c: Crypto, st: CollectorState, packet: bytes): (r: PacketResult)
    requires Sound(st.buffer)
    ensures Sound(r.state.buffer)
  {
    match ParseInitialPacket(packet)
    case None => Refused(st)
    case Some(pkt) =>
      var h := pkt.header;
      var at := For(st, h);
      match InitialSecrets(c, h.version, h.dcid, false)
      case None => Refused(at)
      case Some(keys) =>
        match DecryptInitial(c, packet, keys, at.expected)
        case None => Refused(at)
        case Some(d) =>
          var m := MergeFrames(d.plaintext, at.buffer);
          var next := CollectorState(h.version, h.dcid, if d.pn >= at.expected then d.pn + 1 else at.expected, m.buffer);
          if m.ok then Merged(next, d.pn) else Refused(next)
  }

  datatype Walk = Stopped(state: CollectorState) | Walked(state: CollectorState, lowestPN: nat, found: bool)

  /** All packets of a datagram; the walk ends at the first byte that starts no long header. */
  function WalkPackets(c: Crypto, st: CollectorState, data: bytes, lowestPN: nat, found: bool): (w: Walk)
    requires Sound(st.buffer)
    ensures Sound(w.state.buffer)
    decreases |data|
  {
    if data == [] || data[0] < 0x80 then Walked(st, lowestPN, found)
    else
      match QuicLongPacketEnd(data)
      case None => Stopped(st)
      case Some(p) =>
        if p.packetType == RETRY then Stopped(NEW)
        else if p.packetType == INITIAL then
          match AddPacket(c, st, data[..p.end])
          case Refused(next) => Stopped(next)
          case Merged(next, pn) => WalkPackets(c, next, data[p.end..], if pn < lowestPN then pn else lowestPN, true)
        else WalkPackets(c, st, data[p.end..], lowestPN, found)
  }

  /** The host name a buffer shows, once its ClientHello is complete. */
  function SniOf(b: Buffer): (sni: bytes)
    requires Sound(b)
  {
    var stream := ContiguousStream(b);
    match SniHostNameRange(stream)
    case None => []
    case Some(r) => if ClientHelloComplete(stream) then stream[r.offset..r.offset + r.length] else []
  }

  datatype Heard = Heard(sni: bytes, lowestPN: nat)

  datatype AddResult = AddResult(state: CollectorState, found: Option<Heard>)

  function AddDatagram(c: Crypto, st: CollectorState, data: bytes): (r: AddResult)
    requires Sound(st.buffer)
    ensures Sound(r.state.buffer)
  {
    match WalkPackets(c, st, data, NO_PN, false)
    case Stopped(next) => AddResult(next, None)
    case Walked(next, lowestPN, found) =>
      AddResult(next, if found then Some(Heard(SniOf(next.buffer), lowestPN)) else None)
  }

  class QuicInitialCollector {
    const crypto: Crypto
    var version: nat
    var dcid: bytes
    var expected: nat
    var stream: bytes
    var covered: seq<bool>

    function State(): (st: CollectorState)
      reads this
    {
      CollectorState(version, dcid, expected, Buffer(stream, covered))
    }

    ghost predicate Valid()
      reads this
    {
      Sound(State().buffer)
    }

    constructor (c: Crypto)
      ensures crypto == c && State() == NEW && Valid()
    {
      crypto := c;
      version, dcid, expected, stream, covered := 0, [], 0, [], [];
    }

    method Reset()
      modifies this
      ensures State() == NEW && Valid()
    {
      version, dcid, expected, stream, covered := 0, [], 0, [], [];
    }

    method AddOne(packet: bytes) returns (pn: Option<nat>)
      requires Valid()
      modifies this
      ensures Valid()
      ensures AddPacket(crypto, old(State()), packet)
           == match pn case None => Refused(State()) case Some(n) => Merged(State(), n)
    {
      hide ParseInitialPacket, DecryptInitial, MergeFrames;
      var pkt := ParseInitialPacket(packet);
      if pkt.None? {
        return None;
      }
      var h := pkt.value.header;
      if version != 0 && (h.version != version || h.dcid != dcid) {
        Reset();
      }
      var keys := InitialSecrets(crypto, h.version, h.dcid, false);
      if keys.None? {
        return None;
      }
      var d := DecryptPacket(crypto, packet, keys.value, expected);
      if d.None? {
        return None;
      }
      if version == 0 {
        version := h.version;
        dcid := h.dcid;
      }
      if d.value.pn >= expected {
        expected := d.value.pn + 1;
      }
      var m := MergeFramesLoop(d.value.plaintext, Buffer(stream, covered));
      stream, covered := m.buffer.stream, m.buffer.covered;
      return if m.ok then Some(d.value.pn) else None;
    }

    method Add(data: bytes) returns (found: Option<Heard>)
      requires Valid()
      modifies this
      ensures Valid()
      ensures AddResult(State(), found) == AddDatagram(crypto, old(State()), data)
    {
      hide QuicLongPacketEnd, AddPacket, SniHostNameRange, ClientHelloComplete;
      var lowestPN := NO_PN;
      var foundInitial := false;
      var off := 0;
      assert data[0..] == data;
      while off < |data|
        invariant off <= |data| && Valid()
        invariant WalkPackets(crypto, old(State()), data, NO_PN, false)
               == WalkPackets(crypto, State(), data[off..], lowestPN, foundInitial)
        decreases |data| - off
      {
        ghost var rest := data[off..];
        if data[off] < 0x80 {
          break;
        }
        var p := QuicLongPacketEnd(data[off..]);
        if p.None? {
          return None;
        }
        var end := off + p.value.end;
        assert rest[p.value.end..] == data[end..] && rest[..p.value.end] == data[off..end];
        if p.value.packetType == RETRY {
          Reset();
          return None;
        }
        if p.value.packetType == INITIAL {
          foundInitial := true;
          var pn := AddOne(data[off..end]);
          if pn.None? {
            return None;
          }
          if pn.value < lowestPN {
            lowestPN := pn.value;
          }
        }
        off := end;
      }
      if !foundInitial {
        return None;
      }
      var stream := ContiguousCryptoStream(Buffer(stream, covered));
      var range := FindSni(stream);
      if range.Some? && ClientHelloComplete(stream) {
        return Some(Heard(stream[range.value.offset..range.value.offset + range.value.length], lowestPN));
      }
      return Some(Heard([], lowestPN));
    }
  }
}
