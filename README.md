# Network-layer core of a small C TCP/IP stack, in Dafny

This project models the receive and send paths of a teaching network stack
written in C: Ethernet II framing, ARP resolution with an expiring cache and a
one-packet-per-destination pending buffer (RFC 826), IPv4 input checks and
output fragmentation (section 3.1 of RFC 791), and the ICMP echo reply and
destination-unreachable messages (RFC 792) with the Internet checksum of
RFC 1071.

The modules follow the C sources:

- `Net` (net.dfy): bytes, 4-byte IP and 6-byte MAC addresses, big-endian
  16-bit fields, and the protocol numbers.
- `Checksum` (checksum.dfy): `checksum16` per RFC 1071.
  - Word sum, end-around carry folding, complement.
  - Proof that storing the checksum in a zeroed field yields a buffer whose
    folded sum is all ones.
- `ExpiringMap` (expiring_map.dfy): the `map_t` used for `arp_table` and
  `arp_buf`.
  - Entries are stamped with the time they were set and are read as absent
    once their lifetime has passed.
  - Time is an explicit `now` argument.
- `Ethernet` (ethernet.dfy), `Arp` (arp.dfy), `Ipv4` (ip.dfy), `Icmp`
  (icmp.dfy): the byte layouts.
  - What each C function writes and what each input guard accepts, as
    functions on byte sequences.
  - Round-trip and field lemmas.
  - The in-place fills of the C code as methods on arrays, each proved to
    produce exactly the specified bytes: `Arp.WritePacket` (`arp_req`,
    `arp_resp`), `Ipv4.WriteHeader` (`ip_fragment_out`), and
    `Icmp.FillEchoReply` and `Icmp.FillUnreachable` (`icmp_resp`,
    `icmp_unreachable`).
- `Network` (stack.dfy): the stack's global state as class `Stack`.
  - Fields: the two maps, the `ip_id` counter, the log of frames handed to
    the driver (`sent`) and the log of `net_in` calls (`delivered`).
  - One method per C function, each changing the fields as the C code
    changes its globals.
  - Every method is proved against a transition function on the value
    `NetState` (suffix `T`), which states the whole new state.
  - `ip_out`'s fragment loop is a `for` loop with an invariant over the
    fragment plan.
  - `ip_in` works on an `array` and zeroes the checksum field in place.
- `StackProps` (stack_props.dfy): the properties of those transitions.
  - ARP learning, releasing and answering; the three `arp_out` cases;
    `arp_init`.
  - `ip_in`'s drops, unreachable and delivery.
  - `ip_out` to a cached, pending or unresolved destination.
  - ICMP answers and Ethernet framing.
  - An end-to-end ping.
  - The two findings below.

The model follows the code where it departs from its comments or from the
usual intent:

- `ip_out` sends `len/1480 + 1` fragments (src/ip.c:131). A payload that is
  an exact multiple of 1480 bytes therefore gets a final empty fragment
  (`Ipv4.ExactMultipleTrailingFragment`).
- On a header checksum mismatch `ip_in` returns with the checksum field left
  zeroed (src/ip.c:36, 42-45).
- The comment at src/ip.c:24-25 promises to drop a datagram whose total
  length exceeds the received length. No such check exists, so the datagram
  is processed as received.
- `arp_in` sends no ARP reply when it releases a pending packet for the
  sender, even to a request for our address (the `else` at src/arp.c:151).
- `icmp_unreachable` quotes the datagram after `ip_in` has trimmed its
  padding (src/ip.c:54-57 before 63).
- While the destination is unresolved, `arp_out` keeps only the first
  fragment of a datagram pending; the later fragments are dropped
  (`StackProps.IpOutUnresolved`).

## Model

| member | source | states |
|---|---|---|
| `Checksum.Checksum16` | src/ip.c:100-102 | the checksum stored in a header or ICMP message is the 16-bit one's complement (0xFFFF minus) of the folded big-endian word sum, always below 0x10000 |
| `Checksum.Fold` | src/ip.c:37 | the end-around-carry fold stays within 16 bits, keeps the value modulo 0xFFFF, and is zero only for a zero sum |
| `Checksum.ChecksumDetectsByteChange` | src/ip.c:36-37 | two buffers that differ in exactly one byte have different `checksum16` values |
| `Checksum.ChecksumVerifies` | src/ip.c:100-102 | storing `checksum16` of a buffer into its zeroed, word-aligned checksum field makes the RFC 1071 receiver sum all ones |
| `ExpiringMap.Get` | src/arp.c:142 | a lookup finds a value exactly when the key is present and its entry has not outlived the map's lifetime, and then returns the stored value |
| `ExpiringMap.Put` | src/arp.c:140 | setting a key stamps it with the current time and leaves every other entry as it was |
| `ExpiringMap.Delete` | src/arp.c:147 | deleting a key removes exactly that key and keeps the other entries |
| `ExpiringMap.GetPut` | src/arp.c:140-142 | a value just set reads back for as long as it lives |
| `Ethernet.Padded` | src/ethernet.c:40-43 | a payload under 46 bytes is zero-filled to exactly 46; a longer one is unchanged |
| `Ethernet.Frame` | src/ethernet.c:44-52 | the frame is destination MAC, our MAC, the type in network order, then the padded payload |
| `Ethernet.Parse` | src/ethernet.c:15-27 | a frame shorter than 14 bytes yields nothing; otherwise the payload is exactly the bytes after the 14-byte header, the type is the big-endian field at bytes 12-13 (below 65536) and the source is bytes 6-11 |
| `Ethernet.ParseFrame` | src/ethernet.c:11-54 | reading back a frame built for output gives the padded payload, the same type, the builder's MAC as source and the given destination |
| `Net.Store16` | src/ip.c:92-95 | a 16-bit field store in network order changes exactly those two bytes to the value |
| `Net.CopyIn` | src/arp.c:75-78 | a copy into a buffer at an offset places the source bytes there and keeps every other byte |
| `Arp.WritePacket` | src/arp.c:69-78 | filling the transmit buffer field by field yields exactly the encoded packet |
| `Arp.Encode` | src/arp.c:69-78 | an ARP packet is 28 bytes |
| `Arp.Decode` | src/arp.c:121-140 | a buffer is accepted exactly when it has at least 28 bytes and all five fixed fields match (Ethernet, IP, lengths 6 and 4, opcode request or reply); then its address fields are read out |
| `Arp.DecodeEncode` | src/arp.c:129-138 | every request or reply packet built by the encoder passes the five checks and reads back field for field |
| `Arp.EncodeDecode` | src/arp.c:128-140 | an accepted buffer's first 28 bytes are exactly the encoding of what was read |
| `Arp.DecodeExtended` | src/arp.c:121-138 | bytes after the first 28, such as Ethernet padding, do not affect acceptance or the fields read |
| `Arp.Request` | src/arp.c:70-78 | a request has opcode 1, our MAC and IP as sender, an all-zero target MAC and the wanted IP as target |
| `Arp.Reply` | src/arp.c:98-106 | a reply has opcode 2, our MAC and IP as sender and the given pair as target |
| `Ipv4.FlagsField` | src/ip.c:95 | the flags/offset field holds the offset in its low 13 bits and sets the MF bit exactly when more fragments follow (for offsets below 0x2000) |
| `Ipv4.RawHeader` | src/ip.c:89-100 | the header is 20 bytes with the checksum field zero before the checksum is taken |
| `Ipv4.WriteFixedFields` | src/ip.c:89-97 | the stores before the addresses put version 4 and length 5, TOS 0, the buffer length, the id and flags/offset cut to 16 bits, TTL 64 and the protocol into the first 12 bytes, and leave the rest alone |
| `Ipv4.WriteFields` | src/ip.c:89-100 | after all field stores the buffer is the header with a zero checksum field, followed by the untouched data |
| `Ipv4.WriteHeader` | src/ip.c:84-102 | filling the header in front of the data in place yields exactly the checksummed header followed by the untouched data |
| `Ipv4.Header` | src/ip.c:89-102 | the header ip_fragment_out writes is 20 bytes: every byte as the field stores leave it, except the checksum field, which holds `checksum16` of the header with that field zeroed |
| `Ipv4.HeaderByteChangeDetected` | src/ip.c:34-44 | changing any one of the 20 header bytes of a header that passes ip_in's checksum test makes it fail the test |
| `Ipv4.Datagram` | src/ip.c:84-102 | a datagram is the 20-byte header followed by exactly the fragment data |
| `Ipv4.TrimmedLen` | src/ip.c:54-57 | when the declared total length is below the received length the buffer is cut to exactly that length; otherwise the received length is kept |
| `Ipv4.Inspect` | src/ip.c:15-68 | a buffer under 20 bytes is refused; delivery and unreachable both require version 4, a correct header checksum and our address as destination; each refusal (bad version, bad checksum, not for us) happens exactly when its guard is the first to fail; for a valid datagram for us, every protocol other than ICMP and UDP gives unreachable carrying the source, and ICMP or UDP is delivered exactly when the trimmed length is at least 20 (otherwise it is a runt); delivery hands over exactly the bytes between the header and the total length with the header's protocol and source |
| `Ipv4.AfterInput` | src/ip.c:35-45 | after the checksum step the buffer is unchanged, except that on a mismatch the checksum field stays zero |
| `Ipv4.HeaderChecksumOk` | src/ip.c:100-102 | the header built for output passes the checksum test of input |
| `Ipv4.HeaderVerifies` | src/ip.c:100-102 | the header built for output verifies under the RFC 1071 receiver rule |
| `Ipv4.HeaderFields` | src/ip.c:89-102 | read back, the header has version 4, length 5 words, TOS 0, total length payload+20, the given id and flags/offset, TTL 64, the given protocol, our source and the given destination, and a valid checksum |
| `Ipv4.InspectDatagram` | src/ip.c:15-68 | a datagram we build for the local address with protocol ICMP or UDP is delivered with exactly its data, protocol and source |
| `Ipv4.InspectPaddedDatagram` | src/ip.c:52-57 | the same holds when Ethernet padding trails the datagram: the padding is cut off by the total length |
| `Ipv4.Fragments` | src/ip.c:128-153 | the fragment plan has one fragment up to 1480 bytes and `len/1480 + 1` fragments beyond |
| `Ipv4.FullFragment` | src/ip.c:133-140 | each fragment before the last carries bytes `[i*1480, (i+1)*1480)` at offset `i*1480/8` with MF set |
| `Ipv4.LastFragment` | src/ip.c:141-146 | the last fragment carries the remaining bytes at offset `(n-1)*1480/8` with MF clear |
| `Ipv4.FragmentsShape` | src/ip.c:128-153 | a short payload is one fragment at offset 0 without MF; otherwise every fragment but the last is a full MF chunk, the last has MF clear, and each offset times 8 is its starting byte |
| `Ipv4.FragmentsJoin` | src/ip.c:128-153 | the fragments' data concatenated in order is the original payload |
| `Ipv4.FragmentOffsets` | src/ip.c:137-146 | each fragment's offset field counts, in 8-byte units, the payload bytes sent before it |
| `Ipv4.JoinedPrefix` | src/ip.c:133-140 | the first k fragments carry exactly the first k*1480 payload bytes |
| `Ipv4.ExactMultipleTrailingFragment` | src/ip.c:131 | a payload of exactly k*1480 bytes (k at least 2) yields k+1 fragments, the last one empty |
| `Icmp.WithChecksum` | src/icmp.c:25-27 | filling the checksum field makes it equal the checksum of the message with that field zeroed, and the message verifies; no other byte changes |
| `Icmp.EchoReply` | src/icmp.c:16-27 | the echo reply has the request's length, type 0, code 0, the request's id and sequence number, its data verbatim and a valid checksum over the whole reply |
| `Icmp.Unreachable` | src/icmp.c:67-78 | the unreachable message is 36 bytes for a datagram of at least 28, with type 3, the given code, zero id and sequence, the datagram's first 28 bytes and a valid checksum |
| `Icmp.FillEchoReply` | src/icmp.c:16-27 | filling the transmit buffer in place yields exactly the echo reply |
| `Icmp.FillUnreachable` | src/icmp.c:67-78 | filling the transmit buffer in place yields exactly the unreachable message |
| `Network.ArpOutT` | src/arp.c:167-195 | arp_out never touches the table, the counter or the delivery log, and sends at most one frame, appended to the log |
| `Network.SendFragmentsT` | src/ip.c:133-146 | sending fragments leaves table, counter and delivery log alone and appends at most one frame per fragment |
| `Network.IpOutT` | src/ip.c:115-155 | one ip_out call advances the identifier by exactly one and delivers nothing |
| `Network.ArpInT` | src/arp.c:117-158 | arp_in leaves the identifier and the delivery log unchanged |
| `Network.IcmpInT` | src/icmp.c:38-53 | icmp_in delivers nothing upwards |
| `Network.IcmpUnreachableT` | src/icmp.c:62-81 | icmp_unreachable delivers nothing upwards and uses exactly one identifier |
| `Network.IpInT` | src/ip.c:15-68 | ip_in only ever appends to the delivery log |
| `Network.NetInT` | src/ethernet.c:27 | net_in first records the delivery of the given buffer, protocol and source, then runs the handler |
| `Network.EthernetInT` | src/ethernet.c:11-28 | a frame under 14 bytes changes nothing; otherwise the first new delivery is the bytes after the header with the header's type and source MAC |
| `Network.CheckHeaderChecksum` | src/ip.c:35-45 | in place on the array: the verdict is the header checksum test, and the array is unchanged on success and has the field zeroed on failure |
| `Network.Stack.constructor` | src/ip.c:7 | the stack starts with empty maps, identifier 0 and empty logs |
| `Network.Stack.EthernetOut` | src/ethernet.c:36-55 | the fields after ethernet_out are exactly the transition `EthernetOutT` of the fields before (properties: EthernetOutSends) |
| `Network.Stack.ArpReq` | src/arp.c:62-83 | the fields after arp_req are exactly the transition `ArpReqT` of the fields before (properties: ArpReqSends) |
| `Network.Stack.ArpResp` | src/arp.c:91-109 | the fields after arp_resp are exactly the transition `ArpRespT` of the fields before (properties: ArpRespSends) |
| `Network.Stack.ArpIn` | src/arp.c:117-158 | the fields after arp_in are exactly the transition `ArpInT` of the fields before (properties: ArpInLearns, ArpInReleasesPending, ArpInAnswers) |
| `Network.Stack.ArpOut` | src/arp.c:167-195 | the fields after arp_out are exactly the transition `ArpOutT` of the fields before (properties: ArpOutHit, ArpOutPending, ArpOutMiss) |
| `Network.Stack.ArpInit` | src/arp.c:201-207 | the fields after arp_init are exactly the transition `ArpInitT` of the fields before (properties: ArpInitSends) |
| `Network.Stack.IpFragmentOut` | src/ip.c:80-106 | the fields after ip_fragment_out are exactly the transition `FragmentOutT` of the fields before (properties: Ipv4.HeaderFields) |
| `Network.Stack.SendFragments` | src/ip.c:129-147 | after the fragment loop and the last fragment, the state is exactly the run of the whole fragment plan with one identifier |
| `Network.Stack.IpOut` | src/ip.c:115-155 | the fields after ip_out are exactly the transition `IpOutT` of the fields before (properties: IpOutCached, IpOutPending, IpOutUnresolved) |
| `Network.Stack.IcmpResp` | src/icmp.c:11-30 | the fields after icmp_resp are exactly the transition `IcmpRespT` of the fields before (properties: IcmpEchoCached) |
| `Network.Stack.IcmpIn` | src/icmp.c:38-53 | the fields after icmp_in are exactly the transition `IcmpInT` of the fields before (properties: IcmpInIgnores, IcmpEchoCached) |
| `Network.Stack.IcmpUnreachable` | src/icmp.c:62-81 | the fields after icmp_unreachable are exactly the transition `IcmpUnreachableT` of the fields before (properties: IcmpUnreachableCached) |
| `Network.Stack.IpIn` | src/ip.c:15-68 | the fields after ip_in are exactly the transition `IpInT` of the fields before (properties: IpInDrops, IpInUnreachable, IpInDelivers), and the received array afterwards is as received except for a zeroed checksum field on a mismatch |
| `Network.Stack.NetIn` | src/ip.c:67 | the fields after net_in are exactly the transition `NetInT` of the fields before (properties: Network.NetInT) |
| `Network.Stack.EthernetIn` | src/ethernet.c:11-28 | the fields after ethernet_in are exactly the transition `EthernetInT` of the fields before (properties: EthernetRoundTrip, PingAnswered) |
| `StackProps.ArpFrameReadsBack` | src/arp.c:66-82 | a request or reply frame we build passes ethernet_in's and arp_in's checks and reads back as the packet encoded |
| `StackProps.ArpReqSends` | src/arp.c:62-83 | arp_req adds exactly one broadcast frame carrying a request for the target from our pair, and changes nothing else |
| `StackProps.ArpRespSends` | src/arp.c:91-109 | arp_resp adds exactly one frame to the given MAC carrying a reply from our pair to the given pair, and changes nothing else |
| `StackProps.ArpInIgnoresInvalid` | src/arp.c:121-138 | a buffer shorter than 28 bytes or with any fixed field off changes nothing and sends nothing |
| `StackProps.ArpInLearns` | src/arp.c:140 | a valid packet sets the table entry for the sender's IP to the sender's MAC whatever the opcode, and it reads back while live |
| `StackProps.ArpInReleasesPending` | src/arp.c:142-148 | with a packet pending for the sender, exactly that packet is sent to the sender's MAC as IP, the pending entry is deleted and no reply is sent |
| `StackProps.ArpInAnswers` | src/arp.c:151-156 | with nothing pending, a frame is sent if and only if the packet is a request for our address, and it is a reply to the sender's pair at the sender's MAC |
| `StackProps.ArpOutHit` | src/arp.c:171-177 | on a cache hit the packet is sent once to the cached MAC and nothing else changes |
| `StackProps.ArpOutPending` | src/arp.c:184-188 | on a miss with a packet pending, nothing changes and nothing is sent |
| `StackProps.ArpOutMiss` | src/arp.c:189-193 | on a miss with nothing pending, the packet is kept pending and exactly one broadcast request for the address is sent |
| `StackProps.ArpInitSends` | src/arp.c:201-206 | arp_init empties both maps and broadcasts one request for our own address |
| `StackProps.CachedFrames` | src/ip.c:139-146 | the frames for a cached destination number one per fragment |
| `StackProps.SendFragmentsCached` | src/ip.c:133-146 | with the destination cached, sending a fragment list appends one frame per fragment, in order, each carrying that fragment under the shared identifier |
| `StackProps.IpOutCached` | src/ip.c:115-155 | ip_out to a cached destination sends one frame per fragment of the plan, all with the pre-call identifier, and advances the identifier by one |
| `StackProps.CachedFramesShareId` | src/ip.c:139-146 | every frame of one call carries the pre-call identifier (modulo 65536) in its IP header |
| `StackProps.SendFragmentsPending` | src/arp.c:184-188 | with a packet already pending for an unresolved destination, every fragment is dropped |
| `StackProps.IpOutPending` | src/ip.c:115-155 | ip_out to an unresolved destination with a packet pending sends nothing and only advances the identifier |
| `StackProps.SendFragmentsUnresolved` | src/arp.c:184-193 | to an unresolved destination with nothing pending, the first fragment is kept and later ones are dropped |
| `StackProps.IpOutUnresolved` | src/ip.c:115-155 | ip_out to an unresolved destination keeps only its first fragment pending and sends a single ARP request |
| `StackProps.IcmpInIgnores` | src/icmp.c:42-52 | a message under 8 bytes or of any type but echo request changes nothing |
| `StackProps.IcmpEchoCached` | src/icmp.c:11-53 | an echo request from a cached sender is answered by exactly one frame holding the echo reply in an unfragmented datagram with the current identifier |
| `StackProps.IcmpUnreachableCached` | src/icmp.c:62-81 | icmp_unreachable to a cached sender sends exactly one frame with the unreachable message under the current identifier |
| `StackProps.IpInDropsCorruptedHeader` | src/ip.c:34-44 | a datagram ip_in would deliver or answer as unreachable, with any one header byte changed, is dropped and the whole state is left unchanged |
| `StackProps.IpInDrops` | src/ip.c:19-51 | a short buffer, a version other than 4, a bad checksum, another destination or a runt total length change nothing |
| `StackProps.IpInUnreachable` | src/ip.c:61-65 | another protocol sends one protocol-unreachable message to the datagram's source quoting the trimmed datagram from its header on, and delivers nothing |
| `StackProps.IpInDelivers` | src/ip.c:66-67 | an accepted ICMP or UDP datagram is delivered exactly once (the delivery log grows by that one entry and no other) as the bytes between the header and the total length, with the header's protocol and source |
| `StackProps.EthernetOutSends` | src/ethernet.c:36-55 | ethernet_out adds exactly one frame, which reads back as the padded payload with the given type from our MAC to the given MAC |
| `StackProps.EthernetRoundTrip` | src/ethernet.c:11-55 | a frame built by ethernet_out and received by ethernet_in is delivered as the padded payload with the same type and the builder's MAC |
| `StackProps.IpInEcho` | src/ip.c:66-67 | a delivered echo request from a cached peer is logged once and answered by exactly one echo reply frame |
| `StackProps.PingAnswered` | src/ethernet.c:11-28 | an echo request framed for us from a cached peer makes the stack send exactly one frame back to that peer, with the echo reply and the current identifier |
| `StackProps.UnreachableAsWritten` | src/icmp.c:76 | the 28-byte quote as written is defined only for datagrams of 28 bytes or more, where it agrees with the corrected message |
| `StackProps.UnreachableOverRead` | src/ip.c:54-63 | a well-formed 20-byte datagram for us with protocol 6 reaches icmp_unreachable with fewer than 28 bytes |
| `StackProps.StripHeaderAsWritten` | src/ip.c:66 | removing the header as written is defined only when the trimmed length is at least 20, where it gives the delivered payload |
| `StackProps.RuntTotalLength` | src/ip.c:54-66 | a 20-byte ICMP header for us with a valid checksum and total length 0 passes every guard yet trims below 20 bytes; the corrected model drops it |

## Left out

- Driver I/O (`driver_send`, `driver_recv`), `ethernet_poll` and `ethernet_init`. A sent frame is appended to the `sent` log; a received frame is an argument.
- Drop on corruption is proved for the 20-byte IPv4 header only (`StackProps.IpInDropsCorruptedHeader`).
  - `arp_in` (src/arp.c:117-158) checks no checksum, so a corrupted ARP packet whose fixed fields still pass is acted on. No such property holds for ARP, and none is stated.
  - `icmp_in` (src/icmp.c:38-53) does not check the ICMP checksum, and the IPv4 checksum covers only the header, so a changed byte in an ICMP or UDP payload is not detected either.
- `arp_print`, `arp_entry_print` and the commented-out `arp_init_pkt`: console diagnostics and dead code.
- `map_t` internals: map.c is not part of this model.
  - The expiry rule is taken to be "live while now < set time + lifetime", evaluated at lookup; expired entries are not removed.
  - Lifetimes `ARP_TIMEOUT_SEC` and `ARP_MIN_INTERVAL` are constructor parameters.
  - `buf_copy` of a pending packet is a value copy.
- `buf_t` internals (`buf_init`, header/padding add and remove): buf.c is not part of this model.
  - Buffers are byte sequences.
  - The shared globals `txbuf` and `rxbuf` are fresh sequences, so their aliasing is not modelled. In the C code `icmp_resp` builds its reply in `txbuf` and hands `txbuf` to `ip_out`. Take an echo reply over 1480 bytes to a destination with no ARP entry: the first fragment's `arp_out` calls `arp_req`, which re-initialises `txbuf` to the 28-byte request and frames it. The loop of src/ip.c:129-146 then copies the later fragments from `&buf->data[i*1480]` of that reused buffer, and computes the last fragment's length from the shrunken `buf->len`, which is negative once the offset passes it; what `buf_init` and `memcpy` then do depends on buf.c. The model cuts every fragment from the original payload. Those later fragments are dropped anyway while the request is pending (`StackProps.SendFragmentsUnresolved`), so the model's observable state differs only where the C behaviour is undefined.
- `checksum16` and `swap16` live in utils.c, which is not part of this model. `checksum16` is specified by RFC 1071; fields are written in network byte order.
- `net_in` and `net_add_protocol` (net.c is not part of this model).
  - The protocol registry is a fixed dispatch: ARP and IP from Ethernet, ICMP from IP.
  - UDP has no handler here; its delivery is only logged.
- The default TTL of 64 and the other header constants come from ip.h, which is not part of this model; 64 is assumed.
- Inbound fragment reassembly and UDP processing do not exist in the modelled code.
- `Network.IpOutT`: `ip_id` is an unbounded counter. The C `int` would overflow after 2^31 calls; the header field already takes it modulo 65536, so identifiers repeat after 65536 datagrams.
- `Arp.Encode`: its contract states only the length; the layout is pinned down by `Arp.DecodeEncode` and `Arp.EncodeDecode`.

## Findings

| source | as written | input that shows it | evidently intended | confidence | as-written member | corrected member |
|---|---|---|---|---|---|---|
| src/icmp.c:76 | copies 28 bytes of the received datagram into the unreachable message whatever the datagram's length | a well-formed 20-byte IPv4 datagram for us with protocol 6 (TCP): ip_in passes it to icmp_unreachable, which reads 8 bytes past its end | quote the header and at most 8 data bytes that were actually received | not executed | `StackProps.UnreachableAsWritten`, `StackProps.UnreachableOverRead` | `Icmp.Unreachable` |
| src/ip.c:54-66 | trims the buffer to the total length field, then removes 20 header bytes without checking that the total length is at least 20 | a 20-byte ICMP header for us with a valid checksum and total length 0: the buffer is trimmed to 0 bytes and the header removal underflows | drop a datagram whose total length is below the header length | not executed | `StackProps.StripHeaderAsWritten`, `StackProps.RuntTotalLength` | `Ipv4.Inspect` |
