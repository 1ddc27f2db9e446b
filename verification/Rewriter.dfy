/** The rewriter between client and server: fragmentClientInitial, rewriteClient and rewriteServer. */
module Rewriter {
  import opened Bytes
  import opened PacketNumber
  import opened Acks
  import opened Splitting
  import opened Packet
  import opened Padding
  import opened Datagram

  datatype RewriterState = RewriterState(
    initialized: bool,
    version: nat,
    clientDCID: bytes,
    firstClientPN: nat,
    clientExpected: nat,
    serverExpected: nat
  )

  const INITIAL_STATE: RewriterState := RewriterState(false, 0, [], 0, 0, 0)

  // ---- the client's side --------------------------------------------------

  function SecondPNLen(pn: nat, pnLen: nat): (n: nat)
    requires 1 <= pnLen <= 4
    ensures pnLen <= n <= 4
  {
    if PacketNumberLen(pn + 1) > pnLen then PacketNumberLen(pn + 1) else pnLen
  }

  function FragmentClientInitial(c: Crypto, prefix: bytes, suffix: bytes, h: Header, d: Decrypted, keys: Keys): (r: Option<seq<bytes>>)
    requires 1 <= d.pnLen <= 4
  {
    match SplitInitialCryptoFrames(d.plaintext)
    case None => None
    case Some(f) =>
      match EncryptPaddedInitial(c, h, d.pn, d.pnLen, f.first, keys, |prefix|)
      case None => None
      case Some(one) =>
        match EncryptPaddedInitial(c, h, d.pn + 1, SecondPNLen(d.pn, d.pnLen), f.second, keys, |suffix|)
        case None => None
        case Some(two) => Some([prefix + one, two + suffix])
  }

  datatype ClientResult = ClientResult(state: RewriterState, datagrams: seq<bytes>)

  /** What happens to a client Initial that decrypted, when `original` is the datagram it came in. */
  function ClientPacketStep(c: Crypto, st: RewriterState, original: bytes, prefix: bytes, suffix: bytes,
                            h: Header, d: Decrypted, keys: Keys): (r: ClientResult)
    requires 1 <= d.pnLen <= 4
  {
    var pass := ClientResult(st, [original]);
    if !st.initialized then
      match FragmentClientInitial(c, prefix, suffix, h, d, keys)
      case None => pass
      case Some(datagrams) => ClientResult(RewriterState(true, h.version, h.dcid, d.pn, d.pn + 1, 0), datagrams)
    else if h.version != st.version || h.dcid != st.clientDCID then pass
    else if d.pn == st.firstClientPN then
      match FragmentClientInitial(c, prefix, suffix, h, d, keys)
      case None => pass
      case Some(datagrams) => ClientResult(st, datagrams)
    else if d.pn <= st.firstClientPN then pass
    else
      match EncryptPaddedInitial(c, h, d.pn + 1, SecondPNLen(d.pn, d.pnLen), d.plaintext, keys, |prefix| + |suffix|)
      case None => pass
      case Some(packet) =>
        ClientResult(st.(clientExpected := if d.pn >= st.clientExpected then d.pn + 1 else st.clientExpected),
                     [prefix + packet + suffix])
  }

  /** The number the rewriter expects next from the client. */
  function ClientExpected(st: RewriterState): (n: nat) {
    if st.initialized then st.clientExpected else 0
  }

  function ClientStep(c: Crypto, st: RewriterState, data: bytes): (r: ClientResult)
  {
    var pass := ClientResult(st, [data]);
    match LocateQUICInitial(data)
    case NotFound => pass
    case Retry => pass
    case Found(prefix, packet, suffix) =>
      match ParseInitialPacket(packet)
      case None => pass
      case Some(pkt) =>
        match InitialSecrets(c, pkt.header.version, pkt.header.dcid, false)
        case None => pass
        case Some(keys) =>
          match DecryptInitial(c, packet, keys, ClientExpected(st))
          case None => pass
          case Some(d) => ClientPacketStep(c, st, data, prefix, suffix, pkt.header, d, keys)
  }

  // ---- the server's side --------------------------------------------------

  datatype ServerResult = ServerResult(state: RewriterState, datagram: bytes)

  /** The size the rewritten packet must have: its own, or what lifts the datagram to the minimum size. */
  function TargetSize(packetLen: nat, dataLen: nat): (n: nat)
  {
    packetLen + (if dataLen < MIN_DATAGRAM then MIN_DATAGRAM - dataLen else 0)
  }

  function ServerPacketStep(c: Crypto, st: RewriterState, original: bytes, prefix: bytes, suffix: bytes,
                            pkt: InitialParse, d: Decrypted, keys: Keys): (r: ServerResult)
    requires 1 <= d.pnLen <= 4
  {
    match RewriteAckFrames(d.plaintext, st.firstClientPN)
    case None => ServerResult(st, original)
    case Some(rewritten) =>
      var st' := st.(serverExpected := if d.pn >= st.serverExpected then d.pn + 1 else st.serverExpected);
      if rewritten == d.plaintext then ServerResult(st', original)
      else
        match EncryptInitialToPacketSize(c, pkt.header, d.pn, d.pnLen, rewritten, keys, TargetSize(pkt.packetLen, |original|))
        case None => ServerResult(st', original)
        case Some(packet) => ServerResult(st', prefix + packet + suffix)
  }

  function ServerStep(c: Crypto, st: RewriterState, data: bytes): (r: ServerResult)
  {
    var pass := ServerResult(st, data);
    match LocateQUICInitial(data)
    case Retry => ServerResult(INITIAL_STATE, data)
    case NotFound => pass
    case Found(prefix, packet, suffix) =>
      if !st.initialized then pass
      else
        match ParseInitialPacket(packet)
        case None => pass
        case Some(pkt) =>
          if pkt.header.version != st.version then pass
          else
            match InitialSecrets(c, pkt.header.version, st.clientDCID, true)
            case None => pass
            case Some(keys) =>
              match DecryptInitial(c, packet, keys, st.serverExpected)
              case None => pass
              case Some(d) => ServerPacketStep(c, st, data, prefix, suffix, pkt, d, keys)
  }

  // ---- the object ---------------------------------------------------------

  method Fragment(c: Crypto, prefix: bytes, suffix: bytes, h: Header, d: Decrypted, keys: Keys) returns (r: Option<seq<bytes>>)
    requires Lawful(c) && 1 <= d.pnLen <= 4
    ensures r == FragmentClientInitial(c, prefix, suffix, h, d, keys)
  {
    hide SplitInitialCryptoFrames, EncryptPaddedInitial, Lawful;
    var split := SplitInitial(d.plaintext);
    if split.None? {
      return None;
    }
    var one, attempts1 := PadInitial(c, h, d.pn, d.pnLen, split.value.first, keys, |prefix|);
    if one.None? {
      return None;
    }
    var secondPNLen := d.pnLen;
    if PacketNumberLen(d.pn + 1) > secondPNLen {
      secondPNLen := PacketNumberLen(d.pn + 1);
    }
    var two, attempts2 := PadInitial(c, h, d.pn + 1, secondPNLen, split.value.second, keys, |suffix|);
    if two.None? {
      return None;
    }
    return Some([prefix + one.value, two.value + suffix]);
  }

  /** quicInitialRewriter; each method is one critical section under its mutex. */
  class QuicInitialRewriter {
    const crypto: Crypto
    var initialized: bool
    var version: nat
    var clientDCID: bytes
    var firstClientPN: nat
    var clientExpected: nat
    var serverExpected: nat

    function State(): (st: RewriterState)
      reads this
    {
      RewriterState(initialized, version, clientDCID, firstClientPN, clientExpected, serverExpected)
    }

    constructor (c: Crypto)
      ensures crypto == c && State() == INITIAL_STATE
    {
      crypto := c;
      initialized := false;
      version := 0;
      clientDCID := [];
      firstClientPN := 0;
      clientExpected := 0;
      serverExpected := 0;
    }

    method Reset()
      modifies this
      ensures State() == INITIAL_STATE
    {
      initialized := false;
      version := 0;
      clientDCID := [];
      firstClientPN := 0;
      clientExpected := 0;
      serverExpected := 0;
    }

    method RewriteClient(data: bytes) returns (datagrams: seq<bytes>)
      requires Lawful(crypto)
      modifies this
      ensures ClientResult(State(), datagrams) == ClientStep(crypto, old(State()), data)
    {
      hide LocateQUICInitial, ParseInitialPacket, DecryptInitial, FragmentClientInitial, EncryptPaddedInitial, Lawful;
      var original := [data];
      var located := LocateInitial(data);
      if !located.Found? {
        return original;
      }
      var Found(prefix, packet, suffix) := located;
      var pkt := ParseInitialPacket(packet);
      if pkt.None? {
        return original;
      }
      var h := pkt.value.header;
      var keys := InitialSecrets(crypto, h.version, h.dcid, false);
      if keys.None? {
        return original;
      }
      var expected := 0;
      if initialized {
        expected := clientExpected;
      }
      var d := DecryptPacket(crypto, packet, keys.value, expected);
      if d.None? {
        return original;
      }
      var Decrypted(plaintext, pn, pnLen) := d.value;
      if !initialized {
        var fragments := Fragment(crypto, prefix, suffix, h, d.value, keys.value);
        if fragments.None? {
          return original;
        }
        initialized := true;
        version := h.version;
        clientDCID := h.dcid;
        firstClientPN := pn;
        clientExpected := pn + 1;
        serverExpected := 0;
        return fragments.value;
      }
      if h.version != version || h.dcid != clientDCID {
        return original;
      }
      if pn == firstClientPN {
        var fragments := Fragment(crypto, prefix, suffix, h, d.value, keys.value);
        if fragments.Some? {
          return fragments.value;
        }
        return original;
      }
      if pn <= firstClientPN {
        return original;
      }
      var rewrittenPN := pn + 1;
      if PacketNumberLen(rewrittenPN) > pnLen {
        pnLen := PacketNumberLen(rewrittenPN);
      }
      var rewritten, attempts :=
        PadInitial(crypto, h, rewrittenPN, pnLen, plaintext, keys.value, |prefix| + |suffix|);
      if rewritten.None? {
        return original;
      }
      if pn >= clientExpected {
        clientExpected := pn + 1;
      }
      return [prefix + rewritten.value + suffix];
    }

    method RewriteServer(data: bytes) returns (datagram: bytes)
      requires Lawful(crypto)
      modifies this
      ensures ServerResult(State(), datagram) == ServerStep(crypto, old(State()), data)
    {
      hide LocateQUICInitial, ParseInitialPacket, DecryptInitial, RewriteAckFrames, EncryptInitialToPacketSize, Lawful;
      var located := LocateInitial(data);
      if located.Retry? {
        Reset();
        return data;
      }
      if located.NotFound? || !initialized {
        return data;
      }
      var Found(prefix, packet, suffix) := located;
      var pkt := ParseInitialPacket(packet);
      if pkt.None? || pkt.value.header.version != version {
        return data;
      }
      var keys := InitialSecrets(crypto, pkt.value.header.version, clientDCID, true);
      if keys.None? {
        return data;
      }
      var d := DecryptPacket(crypto, packet, keys.value, serverExpected);
      if d.None? {
        return data;
      }
      var Decrypted(plaintext, pn, pnLen) := d.value;
      var rewritten := RewriteAckFramesLoop(plaintext, firstClientPN);
      if rewritten.None? {
        return data;
      }
      if pn >= serverExpected {
        serverExpected := pn + 1;
      }
      if plaintext == rewritten.value {
        return data;
      }
      var targetPacketSize := pkt.value.packetLen;
      if |data| < MIN_DATAGRAM {
        targetPacketSize := targetPacketSize + MIN_DATAGRAM - |data|;
      }
      var resized, attempts :=
        PadToPacketSize(crypto, pkt.value.header, pn, pnLen, rewritten.value, keys.value, targetPacketSize);
      if resized.None? {
        return data;
      }
      return prefix + resized.value + suffix;
    }
  }
}
