# A model of the phantomsocks packet rewriting and its protocols

phantomsocks carries traffic past middleboxes by changing it in flight. This project models the parts of it that
compute, and proves what they promise:

* **The QUIC Initial rewriter** (`phantomtcp/quic.go`). It splits a client's first Initial packet in two inside the host
  name of the ClientHello, shifts every later client packet number up by one, re-encrypts and pads what it sends, and
  rewrites the acknowledgements of the server so that the client never sees the shift. The main results are about every run
  of client, rewriter and server, with all Initial packets of every datagram. `AckSafety.AckedWereSent` says what the client
  reads of the server's acknowledgements, and exactly when it is told only of packets it sent.
  `NameHidden.NameNeverWhole` says that no packet sent for the first one carries the whole host name.
  `AckSafety.NumberingIsInvertible` says exactly when every number on the wire stands for one packet.
  `RunReassembly.RunReassembles` says that the payloads a receiver reads, in any order of arrival, reassemble exactly as the
  client's own do; `Discarding.DiscardingReassembles` says the same of a receiver that discards repeated numbers.
* **Collecting a ClientHello** from Initial packets that arrive in any order, and flushing the datagrams held back.
* **The SOCKS BIND port queue** (`phantomtcp/socks.go`): threads that hand one listening slot on, any of which may be
  cancelled at any time. It never loses a wakeup, and left alone it always serves the slot.
* **The transparent-proxy sessions** (`phantomtcp/udp_linux.go`): sessions and pending entries under one limit, and a
  queue whose byte counter is updated outside the channel operation.
* **Printers and parsers**: DNS questions and answers (`phantomtcp/dns.go`), TLS record fragmentation
  (`phantomtcp/phantom.go`).

Each loop and each object of the source is a method or a class proved equal to a function; the properties are lemmas
about these functions. Concurrent parts are state machines over the critical sections, with the same functions as steps.
Run `dafny verify dfyconfig.toml` to check everything.

| files | what they hold |
|---|---|
| Bytes, Buffers, Multisets | numbers in bytes, exclusive or, filling a buffer, permutations |
| Varint, PacketNumber | variable-length integers, packet-number coding, nonces |
| Framing, FrameTable, Acks, AckSize | frame boundaries, the table of frame layouts, ACK frames and their remapping, sizes |
| Reassembly, ClientHello, Splitting, HelloShape | the CRYPTO stream, the host name, splitting a payload, printed ClientHellos |
| Packet, Protection, PacketRoundTrip, Padding, Datagram, LongHeaders | Initial packets, header protection, padding, coalesced packets, long headers as written |
| Rewriter, RewriterSteps, Run, Coalesced | the rewriter, its steps on real packets, datagrams with several Initials |
| AckSafety, AckExact, Expectations, NameHidden, SmallHello, RunReassembly, Discarding | its runs: acknowledgements, expected numbers, the host name, concrete runs, what the server receives |
| Collector, CollectorRuns, Arrivals, Pending, HelloArrives | gathering Initial packets, any order of arrival, flushing |
| BindQueue, BindQueueRuns | the BIND queue and its interleavings |
| SessionManager, SessionRuns, FlightRuns, SessionQueue | sessions, their interleavings, a flight that is promoted, the byte-bounded queue |
| DnsQuestion, DnsAnswers, DnsReading, DnsRoundTrip, DnsShape, TlsRecord | DNS and TLS |

## Conventions

* Cryptography is a parameter: a key derivation, an AEAD and a block function. All that is assumed (`Packet.Lawful`) is
  that opening undoes sealing and that a ciphertext is sixteen bytes longer than its plaintext; masks have sixteen bytes
  by their type. `Packet.LawfulCryptoExists` shows that the assumptions can be met.
* Numbers are unbounded. Where the source's width matters it is written out: packet numbers stay below 2^62 and
  `PacketNumber.DecodeFits` shows that decoding never leaves 64 bits; lengths put into 8, 16 or 32 bits are reduced.
* An index the source would take past the end of a slice is a failure value, or a `requires` where callers rule it out.
* The run theorems speak of runs between two Retry packets, of a connection with some original connection ID. They hold
  every datagram of the client (`AckSafety.ClientDatagramsCovered`) and every one of the server but a Retry
  (`AckSafety.ServerDatagramsCovered`), with all Initial packets in them: those the rewriter reads, those it passes on unread,
  and those behind the first one of a datagram, which it does not look at. A run ends before packet numbers run out, and the
  rewriter does not start on a packet of some other connection.
* What the client makes of a server datagram is stated for any numbers it may expect. The rewriter, which may expect another
  number, opens the same packet alike or not at all, as an authenticated cipher has it.

## Where the code does less than it seems to

* The rewriter handles one Initial packet to a datagram; those behind it pass as they are (`AckSafety.FurtherPass`), though a
  datagram may hold several (section 12.2 of RFC 9000) and the collector reads them all. On the client's side such a packet
  keeps its own number: `AckExact.NumberTwiceBehind` is a run of one step in which one datagram goes out with number 1 twice.
  On the server's side its acknowledgements are not rewritten: `AckExact.UnsentAckBehind` is a run in which the first
  Initial is handled and the second tells the client of a packet it never sent.
* The rewriter derives keys from each packet's own connection ID, so it reads the client's Initials only until the client
  adopts the ID the server chose; from then on they go out under their own numbers, without the shift
  (`AckSafety.AdoptedIdStrays`). Numbers on the wire stay unambiguous exactly if no such packet comes right after one that
  was shifted, which for a client that leaves out no number means exactly if there is none
  (`AckSafety.NumberingIsInvertible`). `AckExact.NumberUsedTwice` is a run in which the client's second packet goes out
  under the number of the second half of its first. A handled datagram with one Initial never acknowledges an unsent packet
  to a client that leaves out no number; `AckExact.UnsentAckAfterGap` is a run in which one does, where a number is left out.
* `encryptInitialToPacketSize` cannot hit every size. Where the Length field grows there are holes at header + 65,
  header + 16386 and + 16387, and header + 2^30 + 4 to + 7 (`Padding.ReachableExactly`). In a hole `rewriteServer` passes
  the server's datagram on unchanged. A server answering in another version than the recorded one has its datagrams passed
  on unchanged too. `AckExact.AckedWereSentExactly` gives the exact condition under which a server that acknowledges the
  newest packet on the wire does no harm: these guards, no untouched packet acknowledged after a gap, and no harm in the
  Initials behind. `AckExact.UnsentAckInHole` and `AckExact.UnsentAckInOtherVersion` give runs of one step and server
  datagrams after which the client reads an acknowledgement of a packet it never sent.
* Splitting keeps the CRYPTO stream exactly if no frame of the payload runs to the end of the packet
  (`Splitting.SplitExactlyWhenClosed`): behind STREAM without a length or DATAGRAM without a length the CRYPTO frame
  of the first fragment is swallowed; `SmallHello.OpenEndedSplits` is such a payload. Such frames are not allowed in
  Initial packets (section 12.4 of RFC 9000).
* The bound of 2^30 on packet numbers is needed for the claim that rewriting never lengthens a payload
  (`AckSize.FitNeedsTheBound`; `AckSize.RemapGrowsExactly` gives the exact condition); the padding search does not need it.
* A packet number outside the receiver's window is still decoded right at the two ends of the number space
  (`PacketNumber.DecodeExact`).
* An IPv4 address written in IPv6 form is packed as an A record even in answer to an AAAA question, so an IPv6 list comes
  back exactly if it holds none (`DnsRoundTrip.IPv6Returns`).
* A question is read back exactly if the labels behind the first have 1 to 63 bytes, the first at most 63, and the name at
  most 255 bytes on the wire (`DnsQuestion.RequestReadBack`); an empty first label survives, other empty labels do not.
  `PackQName` counts characters and not bytes, so a name with longer characters is cut and not read back. A request with two
  types is not read at all (`DnsQuestion.TwoTypesNotRead`), and a label of 63 bytes, which `GetQName` accepts, is a pointer
  to `GetNameOffset` (`DnsRoundTrip.RequestIsOneQuestion`).
* The loop over service parameters does not know where its record ends and runs on into what follows
  (`DnsShape.ParamsRunOn`); behind an address that a filter drops, reading goes on at the address itself, as if it were the
  next record (`DnsShape.FilteredAnswer`).
* A split packet counts as acknowledged when either half is, so acknowledgement safety is stated as an exact image.

## Model

| member | source | states |
|---|---|---|
| Varint.WriteRead | phantomtcp/quic.go:52-97 | reading a written integer gives it back modulo 2^62 and consumes exactly its bytes, whatever follows |
| Varint.WriteIsShortest | phantomtcp/quic.go:78-97 | no encoding the reader accepts is shorter than the one written |
| Varint.ReadByTag | phantomtcp/quic.go:52-76 | what the reader makes of bytes, by the two tag bits: length and value, or failure where bytes are missing |
| PacketNumber.DecodeExact | phantomtcp/quic.go:284-310 | decode of encode is the number if and only if it is in the window around the expected number or blocked at an end of the number space |
| PacketNumber.DecodeFits | phantomtcp/quic.go:284-301 | no step of the decoder leaves 64 bits and its result is below 2^62 |
| PacketNumber.DecodeEndsIn | phantomtcp/quic.go:284-301 | the decoded number ends in the digits on the wire |
| PacketNumber.ReadAgain | phantomtcp/quic.go:284-310 | a number decoded from a packet decodes again from its own re-encoding |
| PacketNumber.FreshNumbersDecode | phantomtcp/quic.go:284-323 | a number short enough for its encoding is in the window of a receiver that has seen nothing or all its predecessors |
| PacketNumber.PacketNumberLenShortest | phantomtcp/quic.go:312-323 | the length chosen is the least of 1 to 4 bytes that holds the number, or 4 |
| PacketNumber.EncodePacketNumber | phantomtcp/quic.go:303-310 | the loop writes the low digits, most significant first |
| PacketNumber.DecodeFrom | phantomtcp/quic.go:284-301 | the loop over the header bytes computes the specified number |
| PacketNumber.NonceInjective | phantomtcp/quic.go:325-332 | two packet numbers never share a nonce |
| PacketNumber.NonceUnmasks | phantomtcp/quic.go:325-332 | the first four bytes of a nonce are those of the IV, and the last eight, unmasked with the IV, read as the packet number |
| Framing.FrameLocal | phantomtcp/quic.go:780-878 | a frame ends where it ended wherever its bytes stand, an open-ended one if it stays last |
| Framing.FramesExact | phantomtcp/quic.go:780-878 | parsing into frames and joining frames are inverse, for well-framed sequences and only those |
| FrameTable.FrameEndExact | phantomtcp/quic.go:780-878 | frameEnd ends every frame exactly where a table of field layouts by type does, ACK frames field by field with their range checks, and refuses every other type |
| FrameTable.PrintedFrameEnds | phantomtcp/quic.go:780-878 | a frame written field by field from that table ends where its last field does, whatever stands behind it |
| FrameTable.UnknownRefused | phantomtcp/quic.go:876-905 | a type byte that is not in the table is refused, and with it the rewriting of the payload |
| FrameTable.AckFrameExact | phantomtcp/quic.go:653-708 | an ACK frame of either type is rewritten to the printed form of what its fields say, remapped |
| FrameTable.SegmentExact | phantomtcp/quic.go:929-937 | a CRYPTO frame carries the bytes its second integer counts, at the offset its first one gives |
| Framing.SkipVarintsLoop | phantomtcp/quic.go:771-778 | the loop skips as many integers as specified or fails |
| Framing.ParseRangesLoop | phantomtcp/quic.go:653-708 | the range loop of parseAckFrame returns the specified ranges |
| Framing.ParseAckFrame | phantomtcp/quic.go:653-708 | the whole parser, with its three ECN counts, returns the specified frame |
| Acks.MapInvertsNumbering | phantomtcp/quic.go:741-750 | a wire number stands for exactly the client packet that mapAckPN gives |
| Acks.RemapAckLoop | phantomtcp/quic.go:752-769 | the in-order loop that merges neighbours computes the specified ranges |
| Acks.RemapShape | phantomtcp/quic.go:752-769 | remapped ranges are non-empty, descending with gaps of at least two, and end where the ends map to |
| Acks.RemapMerges | phantomtcp/quic.go:752-769 | at most one pair of neighbours merges, and one does if and only if the shift closes its gap |
| Acks.RemapExact | phantomtcp/quic.go:741-769 | the numbers acknowledged after remapping are exactly the images of those acknowledged before |
| Acks.ParsedAckIsValid | phantomtcp/quic.go:653-708 | every parsed ACK has descending ranges and values that can be printed |
| Acks.AppendAckFrame | phantomtcp/quic.go:710-739 | the printing loop appends the specified bytes, or fails where a range is out of order |
| Acks.PrintedAckParses | phantomtcp/quic.go:653-739 | printing a valid ACK never fails and parses back to the same frame |
| Acks.RewriteFrameExact | phantomtcp/quic.go:880-905 | rewriting one frame never fails and gives one whole frame of the same type |
| Acks.RewriteExact | phantomtcp/quic.go:880-905 | rewriting fails only on payloads that do not parse; its output parses frame by frame to the remapped ACKs and the unchanged other frames |
| Acks.RewriteAckFramesLoop | phantomtcp/quic.go:880-905 | the loop over the payload computes that rewriting |
| AckSize.WireSize | phantomtcp/quic.go:653-739 | an ACK on the wire is at least as long as the same ACK printed |
| AckSize.RemapCost | phantomtcp/quic.go:752-769 | below 2^30 a merged span is paid for by the gap and the span that disappear |
| AckSize.RewriteFits | phantomtcp/quic.go:880-905 | below packet number 2^30 rewriting never makes a payload longer |
| AckSize.FitNeedsTheBound | phantomtcp/quic.go:752-769 | an ACK above the bound whose remapped form is two bytes longer |
| AckSize.RemapGrowsExactly | phantomtcp/quic.go:710-769 | a remapped ACK prints longer if and only if two ranges merge and the merged span takes more bytes than the spans and the gap it replaces and what the count and the largest number save |
| Reassembly.WriteBytesLoop | phantomtcp/quic.go:938-945 | the byte loop writes up to the first contradiction |
| Reassembly.WriteBytesStops | phantomtcp/quic.go:938-945 | a write that fails has written all before the first contradiction and nothing from there on |
| Reassembly.OneCryptoMerges | phantomtcp/quic.go:929-945 | a CRYPTO frame merges if and only if it ends within 65535 bytes and contradicts no byte that has arrived |
| Reassembly.MergeFramesLoop | phantomtcp/quic.go:907-948 | the frame loop computes the specified merge, with its partial result on failure |
| Reassembly.MergeSegmentExact | phantomtcp/quic.go:929-945 | a segment merges if and only if it agrees with every earlier one; the buffer then represents one more |
| Reassembly.MergeExact | phantomtcp/quic.go:907-948 | payloads merge if and only if all parse, stay in range and no two segments disagree; a byte is covered exactly if a segment covers it, with that segment's value |
| Reassembly.MergeOrderIndependent | phantomtcp/quic.go:907-948 | any permutation of the payloads succeeds alike and leaves the same buffer |
| Reassembly.ContiguousGrows | phantomtcp/quic.go:950-956 | the contiguous prefix never shrinks or changes, even in a failing merge |
| Reassembly.ContiguousCryptoStream | phantomtcp/quic.go:950-956 | the scan returns the longest covered prefix |
| Reassembly.ExtractAgrees | phantomtcp/quic.go:417-451 | one merge from nothing succeeds if and only if extraction does and no segments disagree, with the same stream |
| Reassembly.LastWins | phantomtcp/quic.go:417-451 | extraction, also where segments disagree: as long as the farthest segment reaches, at every place the byte of the last segment there, or zero |
| ClientHello.FindSni | phantomtcp/quic.go:464-510 | the extension walk finds the specified host name range |
| ClientHello.SniStable | phantomtcp/quic.go:464-510 | a host name found in a prefix is found at the same place when more has arrived |
| HelloShape.CompleteExactly | phantomtcp/quic.go:453-462 | complete means a message of type 1 with all the bytes its 24-bit length counts |
| HelloShape.NameFound | phantomtcp/quic.go:464-510 | in a printed ClientHello with any fields, any extensions of other types, then server_name with a non-empty name, then any extensions, and any bytes behind, the range found is exactly the bytes of that name |
| HelloShape.NoNameFound | phantomtcp/quic.go:464-510 | in one without a server_name extension no name is found |
| Splitting.CollectFrames | phantomtcp/quic.go:958-995 | the first pass gathers the other frames, the segments and the stream length |
| Splitting.OthersKept | phantomtcp/quic.go:958-995 | the other frames are those of every type but PADDING and CRYPTO, each as often as it is there, in order |
| Splitting.FillStream | phantomtcp/quic.go:996-1015 | the second pass fills the stream and stops at the first contradiction |
| Splitting.SplitInitial | phantomtcp/quic.go:958-1033 | both passes and the cut compute the specified fragments |
| Splitting.SplitPreserves | phantomtcp/quic.go:958-1033 | with any zero padding, the two fragments carry the two halves of the stream, the first all other frames in order, and the cut is strictly inside the host name |
| Splitting.SplitReassembles | phantomtcp/quic.go:958-1033 | reassembling the padded fragments, in either order, succeeds and ends exactly as reassembling the original |
| Splitting.SplitExactlyWhenClosed | phantomtcp/quic.go:958-1033 | the first fragment carries its half if and only if no frame runs to the end of the packet |
| Splitting.SplitsExactly | phantomtcp/quic.go:958-1033 | splitting succeeds if and only if the payload parses, has a CRYPTO frame, its stream is no longer than the payload, without contradiction and hole, and a host name of at least two bytes is found |
| HelloShape.CutInTheMiddle | phantomtcp/quic.go:1016-1033 | the cut leaves half of the name, rounded down, in front of it |
| HelloShape.HelloIsSplit | phantomtcp/quic.go:958-1033 | a payload whose CRYPTO frames carry a printed ClientHello with a name of two bytes or more is split, in the middle of that name |
| SmallHello.OpenEndedSplits | phantomtcp/quic.go:958-1033 | a payload with a DATAGRAM frame that is split although it is not closed: its first fragment carries none of the stream |
| Packet.LawfulCryptoExists | phantomtcp/quic.go:334-411 | the assumptions about the AEAD can be met |
| Packet.KnownVersions | phantomtcp/quic.go:136-158 | keys exist for versions 1, draft 29 and 2, and for no other |
| Protection.SealedForm | phantomtcp/quic.go:371-411 | a packet sent, uncovered with the mask of the sixteen bytes four behind its number, has the printed header and the digits of the number, and behind them the payload sealed for that number and that header |
| Protection.OpenedForm | phantomtcp/quic.go:334-364 | a packet decrypts to a payload if and only if, uncovered likewise, its number decodes to the one given and its payload opens for that number and that header |
| LongHeaders.TypeTable | phantomtcp/quic.go:170-185 | in version 2 the type bits of Initial, 0-RTT, Handshake and Retry are 1, 2, 3 and 0, in every other version 0, 1, 2 and 3 |
| LongHeaders.FirstByteForm | phantomtcp/quic.go:371-400 | the first byte written has the long-header and fixed bits, the type bits of an Initial, zero reserved bits and the number length less one |
| LongHeaders.InitialParseExact | phantomtcp/quic.go:187-242 | parseInitialPacket gives exactly the fields of a head that is written out, a token and a Length the packet has room for, if the type is Initial, and fails otherwise |
| Packet.MaskInPlace | phantomtcp/quic.go:244-282 | the in-place loop masks the low nibble and the number bytes and nothing else |
| Packet.ApplyInPlace | phantomtcp/quic.go:266-282 | protection in place equals the specified protection, or leaves the buffer alone |
| Packet.RemoveInPlace | phantomtcp/quic.go:244-264 | removal in place equals the specified removal, or leaves the buffer alone |
| Packet.ProtectionRoundTrip | phantomtcp/quic.go:244-282 | removing header protection restores the packet and the number length: the sample never overlaps the masked bytes |
| Packet.MaskKeepsType | phantomtcp/quic.go:170-185 | protection changes neither the packet type nor anything between first byte and number |
| Packet.EncryptedSize | phantomtcp/quic.go:371-411 | encryption fails if and only if the packet is too short to sample, and its size is known beforehand |
| Packet.EncryptPacket | phantomtcp/quic.go:371-411 | building, sealing and masking in a buffer equals the specified encryption, for any requested number length: one outside 1 to 4 is replaced by the shortest |
| Packet.DecryptPacket | phantomtcp/quic.go:334-364 | unmasking a copy and opening equals the specified decryption |
| PacketRoundTrip.HeaderParses | phantomtcp/quic.go:187-242 | a printed header parses back to version, both connection IDs, token and length, for the type bits of every version, with any masked nibble and any bytes behind |
| PacketRoundTrip.DecryptEncrypted | phantomtcp/quic.go:334-411 | an encrypted packet followed by any bytes decrypts to the same plaintext, number and number length |
| Padding.PaddedInitialFits | phantomtcp/quic.go:1271-1289 | padding fails only for packets too short to sample; the datagram has at least 1200 bytes and overshoots by at most one |
| Padding.PadInitial | phantomtcp/quic.go:1271-1289 | the loop computes that packet within two attempts |
| Padding.SearchComplete | phantomtcp/quic.go:1291-1312 | the size search finds a padding if and only if one exists, within four of eight attempts |
| Padding.ToPacketSizeExact | phantomtcp/quic.go:1291-1312 | it succeeds if and only if the packet can be sampled and some padding gives the size, and the result has that size |
| Padding.ReachableExactly | phantomtcp/quic.go:1291-1312 | which sizes some padding gives: all from the unpadded one up except the holes of the Length field |
| Padding.PadToPacketSize | phantomtcp/quic.go:1291-1312 | the loop computes the specified search and uses at most four attempts when it succeeds |
| Datagram.LocateInitial | phantomtcp/quic.go:1250-1269 | the walk terminates with the specified prefix, packet and suffix |
| LongHeaders.LongPacketExact | phantomtcp/quic.go:1203-1248 | a long-header packet ends where the layout of its kind ends, an Initial behind token and payload, 0-RTT and Handshake behind the payload, Retry and Version Negotiation with the datagram |
| LongHeaders.RetryExactly | phantomtcp/quic.go:1250-1269 | the walk answers Retry if and only if, behind whole 0-RTT and Handshake packets, stands a long header of non-zero version with the Retry bits of that version |
| LongHeaders.FoundExactly | phantomtcp/quic.go:1250-1269 | and an Initial if and only if a whole one stands there, with exactly what stands before and behind it |
| LongHeaders.ResetsExactly | phantomtcp/quic.go:1416-1430 | a server datagram sets the rewriter back if and only if it holds such a Retry |
| Datagram.WalksAgree | phantomtcp/quic.go:1203-1248 | an Initial measured by quicLongPacketEnd is accepted by parseInitialPacket with the same length |
| Datagram.WalksAgreeBack | phantomtcp/quic.go:187-242 | and the other way round, for connection IDs of at most 20 bytes; only version 0, which parseInitialPacket accepts, is measured as a version negotiation of the same length |
| Datagram.LocateExact | phantomtcp/quic.go:1250-1269 | prefix, packet and suffix are the input; the prefix is whole packets, none Initial or Retry; both header walks agree on the packet |
| Datagram.LocatedBehind | phantomtcp/quic.go:1250-1269 | conversely an Initial behind such packets is located with everything around it |
| Rewriter.QuicInitialRewriter.Reset | phantomtcp/quic.go:1194-1201 | every field returns to its initial value |
| Rewriter.QuicInitialRewriter.RewriteClient | phantomtcp/quic.go:1340-1414 | the method moves the fields and returns the datagrams as the client step function says |
| Rewriter.QuicInitialRewriter.RewriteServer | phantomtcp/quic.go:1416-1469 | the method moves the fields and returns the datagram as the server step function says |
| RewriterSteps.Received | phantomtcp/quic.go:334-411 | any receiver whose expectation decodes the number takes the packet out of its datagram and reads its content |
| RewriterSteps.ReadableIsSendable | phantomtcp/quic.go:334-364 | whatever decrypts has content within the limits of the formats and a number that decodes again |
| RewriterSteps.ReencryptionSucceeds | phantomtcp/quic.go:1340-1414 | the fallback after a failed re-encryption cannot fire for a packet that decrypted |
| RewriterSteps.FragmentExactly | phantomtcp/quic.go:1314-1338 | fragmenting succeeds if and only if splitting does, and both datagrams have at least 1200 bytes |
| Run.ClientEmission | phantomtcp/quic.go:1340-1414 | for a client Initial the rewriter sends exactly the listed packets, padded, and moves to the listed state |
| Run.ClientUnopenedPasses | phantomtcp/quic.go:1340-1386 | every other client datagram - no Initial, an unknown version, a packet that does not decrypt under keys from its own connection ID, or another connection ID or version than the recorded one - goes out as it came and nothing is noted |
| Run.ShiftKeepsDecoding | phantomtcp/quic.go:284-323 | a receiver that would decode the client's number and has seen one number more decodes the shifted number under the length it is sent with |
| Run.SecondLengthFits | phantomtcp/quic.go:1322-1324 | the shifted number fits the length it is sent with, which is the client's own unless it had become too short |
| Run.ServerEmission | phantomtcp/quic.go:1416-1469 | a server Initial that the rewriter opens becomes the rewritten payload in a datagram of exactly max(length, 1200) bytes with the same prefix and suffix if and only if the payload changes and the size can be met, and itself otherwise |
| Run.UnopenedPasses | phantomtcp/quic.go:1416-1469 | every other server datagram but a Retry - no Initial, another version, a number or a tag that does not decrypt, or before the rewriting starts - goes out as it came and nothing is noted |
| Run.RewrittenAcks | phantomtcp/quic.go:880-905 | a rewritten payload acknowledges exactly the images |
| Run.PaddingAcksNothing | phantomtcp/quic.go:1291-1312 | zero padding acknowledges nothing, also behind an open-ended frame |
| AckSafety.RunKeepsInvariant | phantomtcp/quic.go:1340-1469 | at every point of every run, whatever datagrams but a Retry it holds, packets that were read since the start are numbered by the shift and all others, those behind the first Initial of a datagram among them, by themselves |
| NameHidden.NameNeverWhole | phantomtcp/quic.go:1340-1386 | in every run, whenever a packet under the number the rewriting started with can be split, it goes out as two packets, under its number with the front of the stream and all other frames, under the next one with the rest, and each misses a byte of the host name |
| NameHidden.LaterIsMoved | phantomtcp/quic.go:1391-1414 | a later packet goes out alone, under the next number, with zero padding behind its payload |
| NameHidden.OthersAsTheyCame | phantomtcp/quic.go:1366-1390 | an earlier packet, and one that cannot be split, goes out as it came |
| Expectations.ExpectsTheNext | phantomtcp/quic.go:1377-1412 | in every run the number expected next of the client is one more than the largest read since the start, that of the server one more than the largest read from it |
| AckSafety.ClientDatagramsCovered | phantomtcp/quic.go:1340-1414 | every client datagram, with whatever the server finds in all its Initials, is a step of the runs, read or passed on, but for a number at the end of the number space or a start on another connection |
| AckSafety.AdoptedIdStrays | phantomtcp/quic.go:1357-1386 | once the rewriting has started, every datagram whose first Initial has another connection ID or version than the recorded one goes out as it came, whatever its keys |
| AckSafety.FurtherPass | phantomtcp/quic.go:1314-1414 | whatever stands behind the first Initial of a client datagram ends the last datagram sent, byte for byte |
| AckSafety.ServerDatagramsCovered | phantomtcp/quic.go:1416-1469 | every server datagram but a Retry is a step of the runs, read or passed on, until packet numbers run out |
| AckSafety.NumberingIsInvertible | phantomtcp/quic.go:741-750 | in every run, numbers on the wire stand for one client packet each if and only if no packet behind the split one went out untouched right after one that was read; mapAckPN recovers all of them if and only if none behind the split one went out untouched; for a client that leaves out no number the two conditions are one |
| AckSafety.NumbersReachTheWire | phantomtcp/quic.go:1340-1414 | every number counted as sent did go out: any receiver that decodes it reads the listed packet with zero padding from its datagram |
| AckSafety.ClientSees | phantomtcp/quic.go:1416-1469 | before the rewriting starts and after, with any expectations of its own: the client reads the first Initial of a datagram with the rewritten payload, under the same number, if the rewriter opens it and the size can be met, and as the server made it otherwise; every further Initial as the server made it |
| AckSafety.AckedWereSent | phantomtcp/quic.go:1340-1469 | at every point of every run, for a handled server datagram whose Initials acknowledge only numbers on the wire: the first tells the client exactly the images of what the server acknowledged, the further ones what the server wrote; all of it was sent if and only if the first acknowledges no untouched packet whose predecessor was left out and the further ones name only numbers sent |
| AckSafety.ClientCanSend | phantomtcp/quic.go:1340-1414 | the run theorems are about every client Initial of the connection whose number the rewriter decodes, with anything behind it |
| AckSafety.ServerCanSend | phantomtcp/quic.go:1416-1469 | and about every server datagram whose first Initial has a number that client and rewriter decode, with anything behind it; the rewriter opens it if and only if it has the recorded version |
| AckSafety.FitsUnlessHole | phantomtcp/quic.go:1416-1469 | below 2^30 the size can be met unless it falls in a hole |
| AckExact.NewestUnsent | phantomtcp/quic.go:1340-1414 | once a packet has been split, the newest number on the wire, if it is a shifted one, is one the client has not sent |
| AckExact.AckedWereSentExactly | phantomtcp/quic.go:1416-1469 | if some Initial of a server datagram acknowledges the newest number on the wire, a shifted one, all the client reads as acknowledged was sent if and only if that is the first Initial, the rewriter opens it, the required size is at least the unpadded one and not in a hole of the Length field, it acknowledges no untouched packet whose predecessor was left out, and the further Initials name only numbers sent |
| AckExact.SplitIsReached | phantomtcp/quic.go:1340-1381 | under any lawful cryptography a client datagram with a padded Initial of 1200 bytes, a connection ID of eight and a ClientHello, and with anything behind it, starts the rewriting: a run of one step |
| AckExact.UnsentAckInHole | phantomtcp/quic.go:1291-1312 | after that run, a server datagram whose required packet size is a hole, honest about the wire, makes the client read an acknowledgement of a packet it never sent |
| AckExact.UnsentAckInOtherVersion | phantomtcp/quic.go:1416-1440 | and so does a server datagram of any other supported version |
| AckExact.UnsentAckBehind | phantomtcp/quic.go:1250-1269 | and so does a datagram with two Initials of which the rewriter handles the first |
| AckExact.NumberUsedTwice | phantomtcp/quic.go:1357-1386 | after that run, the client's next packet under any other connection ID goes out as number 1, which a server has read from the second half of the first one; no number is left out |
| AckExact.NumberTwiceBehind | phantomtcp/quic.go:1314-1338 | a client packet behind the first Initial of the starting datagram goes out in the same datagram as the second half, both with number 1 |
| AckExact.UnsentAckAfterGap | phantomtcp/quic.go:741-750 | and a next packet that leaves out number 1 makes the client read an acknowledgement of 1, from a server datagram that the rewriter does handle |
| RunReassembly.ReceiverReads | phantomtcp/quic.go:1340-1414 | a receiver that decodes the numbers reads every Initial packet of the connection in the datagrams sent for an event |
| RunReassembly.SameStreamReassembles | phantomtcp/quic.go:907-948 | two lists of payloads that give the same bytes at the same places and reach equally far merge alike, into the same buffer |
| RunReassembly.RunReassembles | phantomtcp/quic.go:1314-1414 | at every point of every run with closed client payloads, the payloads a receiver reads from all Initial packets of all datagrams sent, in any order of arrival, merge if and only if the client's own do, into the same stream with the same coverage; in order they carry the same other frames |
| Discarding.NothingDiscardedExactly | phantomtcp/quic.go:1340-1414 | for a client that gives no number twice, no two packets sent in a run bear one number if and only if none went out untouched right after one that was read and shifted |
| Discarding.DiscardingReassembles | phantomtcp/quic.go:1314-1414 | then a receiver that keeps one packet of each number keeps every packet once, in whatever order and however often they arrive, and reassembles exactly as the client's own payloads do |
| Collector.QuicInitialCollector.AddOne | phantomtcp/quic.go:1080-1108 | one Initial packet: reset on another connection, decrypt, merge, as specified |
| Collector.QuicInitialCollector.Add | phantomtcp/quic.go:1062-1120 | the walk over coalesced packets computes the specified state and host name |
| CollectorRuns.HeardExactly | phantomtcp/quic.go:1062-1120 | a datagram is accepted if and only if it is whole packets, none of them Retry and at least one Initial, with anything but a long header behind or a Version Negotiation, and every Initial can be read and contradicts nothing |
| CollectorRuns.HeardOfAll | phantomtcp/quic.go:1062-1120 | then all its Initials are merged in order, and the least of their numbers is reported with the host name |
| CollectorRuns.RetryClears | phantomtcp/quic.go:1073-1076 | a Retry behind packets that can be read clears all that was collected, and the datagram is refused |
| CollectorRuns.OtherConnectionStartsAfresh | phantomtcp/quic.go:1084-1087 | a datagram of another version or connection ID is read as if nothing had come before it |
| Arrivals.DatagramArrives | phantomtcp/quic.go:1062-1120 | a datagram of the collector's connection has its payload merged and its number reported, and nothing else happens |
| Arrivals.FlightMerges | phantomtcp/quic.go:1062-1120 | datagrams in sequence are accepted if and only if their payloads merge, and leave that buffer |
| Arrivals.ArrivalOrder | phantomtcp/quic.go:1062-1120 | a permutation of the datagrams is accepted alike and shows the same host name |
| Arrivals.HostNameFound | phantomtcp/quic.go:1062-1120 | pieces of a ClientHello, in any order, overlapping or repeated, are all accepted and its host name is found |
| Arrivals.NameSurvives | phantomtcp/quic.go:1108-1119 | once found, the host name is neither lost nor changed by a packet of the same connection |
| HelloArrives.HeardWhenComplete | phantomtcp/quic.go:1108-1119 | while a byte of a ClientHello is missing nothing is heard; as soon as none is, exactly its host name |
| Pending.SortIsStable | phantomtcp/quic.go:1159-1169 | the packets are flushed in ascending order, those of one number as they came, none lost and none twice |
| Pending.StableSortUnique | phantomtcp/quic.go:1159-1169 | any stable sort gives this very order |
| Pending.FlushOrder | phantomtcp/quic.go:1159-1169 | packets of different numbers are flushed in the same order whatever the order they came in |
| Pending.AccumulateExact | phantomtcp/quic.go:1141-1192 | while waiting every datagram is held and counted; when the ClientHello is complete all are flushed, none twice, at most 256 KiB |
| Pending.AccumulatedExactly | phantomtcp/quic.go:1181-1192 | failure if and only if the datagram is refused or more than 256 KiB are held with it; otherwise the flush of everything held if and only if the stream shows a complete ClientHello, and waiting if not |
| Pending.QuicInitialPending.Add | phantomtcp/quic.go:1141-1153 | an accepted datagram is appended and counted and starts the clock again; a refused one does none of this |
| Pending.QuicInitialPending.Datagrams | phantomtcp/quic.go:1159-1169 | the loop returns the payloads in flush order |
| Pending.QuicInitialPending.Accumulate | phantomtcp/quic.go:1181-1192 | failure, waiting or the flushed datagrams, as specified |
| BindQueue.BindPortQueue.Look | phantomtcp/socks.go:247-267 | the slot is taken if and only if it is free and the port opens; who finds it taken goes to the back of the queue; waiters stay distinct and unpopped, and otherwise the queue is untouched |
| BindQueue.BindPortQueue.Pop | phantomtcp/socks.go:302-314 | nobody is popped while the slot is taken or the queue is empty, and then nothing changes; otherwise the first waiter leaves, the others keep their order, and it was never popped before |
| BindQueue.BindPortQueue.RemoveWaiter | phantomtcp/socks.go:213-223 | exactly this waiter is gone, the others keep their order, and waiters stay distinct |
| BindQueueRuns.RunKeepsInvariant | phantomtcp/socks.go:213-322 | every interleaving keeps the invariant of queue, notifications, watchers and owner |
| BindQueueRuns.NoLostWakeup | phantomtcp/socks.go:247-322 | listening has exactly one owner; if nobody listens and someone waits, a thread still owes a look at the queue |
| BindQueueRuns.CancelledIsSettled | phantomtcp/socks.go:269-295 | a cancelled waiter is out of the queue with no notification coming, or was popped and has exactly the one it passes on |
| BindQueueRuns.SendNeverBlocks | phantomtcp/socks.go:302-314 | a waiter that is to be notified has an empty channel |
| BindQueueRuns.InternalWorks | phantomtcp/socks.go:247-322 | every step that needs nobody outside reduces the work left |
| BindQueueRuns.QuietIsServed | phantomtcp/socks.go:247-322 | where no such step is possible the port is held or nobody waits |
| BindQueueRuns.SlotIsServed | phantomtcp/socks.go:247-322 | left alone from any reachable state the threads stop after boundedly many steps, with the port held or nobody waiting |
| SessionManager.TproxyUDPSessionManager.StartSession | phantomtcp/udp_linux.go:371-405 | a session is made if and only if there is something to send, none is listed for the flow and the limit allows it; it has a name no listed session has, and a refusal changes nothing |
| SessionManager.TproxyUDPSessionManager.DispatchDatagram | phantomtcp/udp_linux.go:260-313 | an open session takes the datagram whatever the limit and a waiting flow has it added; of the unknown flows, below 1024 in all, those to HTTP/3 that start with an Initial wait under a new name, others that UDP admits get a session with this datagram; all else is dropped, which changes nothing; each if and only if, and other flows are untouched |
| SessionManager.TproxyUDPSessionManager.ContinuePending | phantomtcp/udp_linux.go:315-369 | given up if and only if more than 5 s have passed since the last accepted datagram, this one is refused, more than 256 KiB are held with it, or the name is found and there is no outbound; waiting, with this datagram behind the old ones, if and only if none of these holds and the name is missing; promoted otherwise, with all datagrams in stable order of their numbers; an outdated call changes nothing |
| SessionManager.TproxyUDPSessionManager.UnlistSession | phantomtcp/udp_linux.go:447-451 | afterwards the session is listed nowhere; if it was listed one place is free, if not nothing changed; other flows and all pending entries are untouched |
| SessionRuns.RunKeepsInvariant | phantomtcp/udp_linux.go:260-459 | in every interleaving no key is in both maps, together they hold at most 1024, and each done channel is closed at most once |
| SessionRuns.RemovesOnlyItself | phantomtcp/udp_linux.go:437-459 | a removal unlists exactly its own session, never a newer one, and frees its slot |
| SessionRuns.OneSessionPerFlow | phantomtcp/udp_linux.go:371-405 | in every run, of all sessions ever started for a flow at most one is not yet removed, and while it is not the flow has no pending entry |
| SessionRuns.PromotionSucceeds | phantomtcp/udp_linux.go:352-369 | promotion is never refused for want of room, hands over all datagrams and keeps the total |
| FlightRuns.FlightContinues | phantomtcp/udp_linux.go:315-369 | a datagram of a flight that carries a ClientHello, in time and within the limit, leaves its entry waiting with one more datagram while a byte is missing, and promotes it when none is |
| FlightRuns.EntryWaits | phantomtcp/udp_linux.go:315-350 | in any run, with any other events between, the entry fed such a flight is there until its last datagram and holds what it was fed |
| FlightRuns.FlightIsPromoted | phantomtcp/udp_linux.go:315-369 | and the last datagram replaces it by a new session that is handed every datagram in the order of their numbers |
| SessionQueue.TproxyUDPSession.Enqueue | phantomtcp/udp_linux.go:417-435 | accepted if and only if open, within 256 KiB and within 32 packets; then appended |
| SessionQueue.TproxyUDPSession.FlushUpstream | phantomtcp/udp_linux.go:469-486 | everything queued is written in order and the counter returns to zero; if a write or its deadline fails, the packets before it are written, that one is off the queue and counted off, and the rest stay in order |
| SessionQueue.TproxyUDPSession.Close | phantomtcp/udp_linux.go:437-446 | only the first close closes the done channel |
| SessionQueue.AccountingExact | phantomtcp/udp_linux.go:417-486 | in every interleaving the free counter equals channel plus bytes in hand, stays in 0 to 256 KiB, and packets leave in order, none lost or doubled |
| SessionQueue.EnqueueSteps | phantomtcp/udp_linux.go:417-435 | the steps of an enqueue, from any state with a free lock: admitted if and only if open and within 256 KiB with what the consumer has in hand, sent if and only if below 32 packets, then last and counted; otherwise nothing changes |
| SessionQueue.ConsumerSteps | phantomtcp/udp_linux.go:469-486 | the steps of the consumer: the oldest packet leaves the channel and is counted off |
| SessionQueue.ClosedIsFinal | phantomtcp/udp_linux.go:417-446 | a closed session accepts nothing more |
| TlsRecord.FindSNI | phantomtcp/phantom.go:242-302 | the walk over the extensions returns the specified offset, length and ECH flag |
| HelloShape.RecordNameFound | phantomtcp/phantom.go:242-302 | in a record with a printed ClientHello of any fields and extensions the name of the first server_name is found where it stands, unless it ends with the bytes at hand, with ECH reported exactly if it came before |
| HelloShape.RecordNoName | phantomtcp/phantom.go:242-302 | without server_name no name is found, and ECH is reported exactly if it is there |
| TlsRecord.TLSFragment | phantomtcp/phantom.go:402-419 | the buffer is filled with the three specified records |
| TlsRecord.FragmentsRead | phantomtcp/phantom.go:402-419 | the output is read as three records whose payloads join to the original |
| TlsRecord.NameIsCut | phantomtcp/proxy.go:227-230 | fragmenting at the middle of a name found gives three non-empty records with a boundary inside the name |
| DnsQuestion.PackQName | phantomtcp/dns.go:931-948 | the in-place fill turns the copied name into its labels; a name with more bytes than characters is cut at the number of characters |
| DnsQuestion.PackRequest | phantomtcp/dns.go:998-1040 | the request is header, one or two questions and the client subnet, to the byte |
| DnsShape.RequestHeader | phantomtcp/dns.go:998-1014 | the six numbers of the header: id, flags 0x0100, one question or two, no answer, an additional record exactly with a client subnet |
| DnsShape.SecondQuestion | phantomtcp/dns.go:1026-1040 | with two types the first question is a pointer to the name of the second, its own type and IN; without it the second is read back with its own type |
| DnsShape.SubnetShape | phantomtcp/dns.go:1042-1086 | the client-subnet record: its lengths are those of what follows, its family and prefix those of the address, which is there with that many bits |
| DnsShape.WideNameIsCut | phantomtcp/dns.go:931-948 | of a name with fewer characters than bytes the rest is lost, and a byte of the name stands where it should end |
| DnsQuestion.ReadQName | phantomtcp/dns.go:364-413 | the loop over the labels returns the specified question |
| DnsQuestion.RequestReadBack | phantomtcp/dns.go:364-413 | with or without a client subnet, name, type and length are read back if and only if the name has as many bytes as characters and is readable |
| DnsQuestion.TwoTypesNotRead | phantomtcp/dns.go:364-413 | a request with two types is refused: its first name is a pointer |
| DnsQuestion.OrdinaryNames | phantomtcp/dns.go:998-1040 | in particular for labels of 1 to 63 bytes and at most 255 on the wire |
| DnsAnswers.PackA | phantomtcp/dns.go:633-684 | the buffer of the length added up beforehand is filled to the last byte with one record for each address |
| DnsAnswers.PackService | phantomtcp/dns.go:697-795 | the precomputed length is filled exactly; nothing is packed when there is nothing to say or an IPv4 hint is not one |
| DnsShape.LeftToLive | phantomtcp/dns.go:634-640 | the time to live is what is left, modulo 2^32, but at least the least one; the least one for a hint without a time |
| DnsShape.FourBytes | phantomtcp/dns.go:645-653 | an IPv4 address is four bytes, or those behind ten zeros and two bytes of ones |
| DnsShape.ResponseHeader | phantomtcp/dns.go:833-929 | a response keeps id, question count and questions and has flags 0x8180; it counts one answer for each address or one service record, or, exactly if there is nothing to say, has an authority record |
| DnsShape.NodataShape | phantomtcp/dns.go:809-825 | that record is a SOA of the root with its length and the least time to live in both places |
| DnsShape.RecordHeadShape | phantomtcp/dns.go:660-682 | an answer record starts with a pointer to the question's name, its type, IN, the time to live and the length |
| DnsShape.ServiceShape | phantomtcp/dns.go:733-742 | a service record has the length of what follows, priority 1 and the name itself as target |
| DnsReading.FindNameEnd | phantomtcp/dns.go:442-466 | the walk over a name ends as specified |
| DnsReading.DNSRecords.AddParams | phantomtcp/dns.go:566-617 | the parameter loop adds the specified flags, hints and ECH |
| DnsShape.AlpnsRead | phantomtcp/dns.go:581-597 | of a list of protocol names http/1.1, h2 and h3 are noted wherever they stand, and nothing else |
| DnsShape.ParamsRunOn | phantomtcp/dns.go:570-617 | the loop over parameters runs on through all that can be taken for one, to the last four bytes of the message or a length it has no room for |
| DnsShape.OtherParam | phantomtcp/dns.go:570-617 | a parameter of another key changes nothing |
| DnsReading.DNSRecords.Get | phantomtcp/dns.go:468-627 | questions are skipped and answers added as specified, under any answer filter of addresses and NAT64 prefix |
| DnsShape.FilteredAnswer | phantomtcp/dns.go:536-566 | an address record under any filter: what the filter makes of it is noted; where it drops the address, or makes no IPv4 address of one, reading goes on at the address itself |
| DnsShape.OtherAnswer | phantomtcp/dns.go:535-627 | a record of another type is passed over whatever it holds |
| DnsRoundTrip.AddressesReturn | phantomtcp/dns.go:912-929 | an address list comes back in order, each address under its own family, with its time to live |
| DnsShape.ExpiryReturns | phantomtcp/dns.go:629-690 | a list with time left that is read in the second it is packed comes back with its own expiry, or the reader's least one if that is later |
| DnsRoundTrip.IPv4Returns | phantomtcp/dns.go:629-690 | an IPv4 list comes back whole if and only if every address is one |
| DnsRoundTrip.IPv6Returns | phantomtcp/dns.go:629-695 | an IPv6 list comes back as it was if and only if it holds no IPv4 address in IPv6 form |
| DnsRoundTrip.ServiceReturns | phantomtcp/dns.go:697-795 | a service record brings back both hint lists and ECH exactly, h3 as it was and https as h2 |
| DnsRoundTrip.NodataRead | phantomtcp/dns.go:809-825 | an empty answer leaves the records alone |
| DnsRoundTrip.RequestIsOneQuestion | phantomtcp/dns.go:442-466 | a request for a name with labels of 1 to 63 bytes is what the answer theorems ask for if and only if no label has 63 |

## Left out

- HKDF, AES, GCM and SHA-256 (phantomtcp/quic.go:99-158): abstract functions with the laws stated above.
- Sockets, dialing, deadlines, relaying and the receive loops of the proxies; the time is a parameter where it matters.
- Raw packet injection and platform files, configuration, HTTP handling, Google QUIC and the host-name cache.
- The choice of outbound, GetQUICVersion and isQUICInitialDatagram are parameters of the session manager.
- The client's order of the two halves (HINT_REVERSE): both orders are covered by Splitting.SplitReassembles.
- AckSafety.AckedWereSent: for datagrams that are handled; AckExact.AckedWereSentExactly shows for the acknowledgements that matter that nothing less will do.
- RunReassembly.RunReassembles: for payloads without open-ended frames, as Splitting.SplitPreserves.
- Discarding.DiscardingReassembles: for clients whose own datagrams reach the rewriter once; repetition on the way to the server is covered.
- Splitting.SplitPreserves: for payloads without open-ended frames; Splitting.SplitExactlyWhenClosed gives the converse.
- Arrivals.OneFlight: numbers below half the window of their encoding, so that every order of arrival decodes; behind the Initial packet no further long header.
- BindQueue: deletion of an idle queue from the global table, and the moment between looking a queue up and locking it; the queue stays registered. No claim of fairness: a newcomer may take the slot before a notified waiter.
- SessionManager: the session's own goroutine beyond its queue, and the 64 dial workers.
- DnsQuestion.PackRequest: requests that fit the buffer of 512 bytes, beyond which the source panics; the number of characters of a name is a parameter.
- DnsAnswers.PackService: records whose total length fits sixteen bits; beyond that the source's buffer is too short and it truncates or panics.
- DnsReading.GetAnswers: names behind CNAME records, which the source only logs; filter and NAT64 prefix are parameters, and the round trips are stated without them.
- DnsRoundTrip.BuildResponse: fake addresses (a positive Index).
- DnsReading.DNSRecords: slices are taken to end with the message; the source may have room behind it.
