/** Properties of the stack's transitions: what each C function of the ARP,
    IP, ICMP and Ethernet engines does to the tables, the identifier counter
    and the frames handed to the driver, stated over the transition
    functions that the methods of `Network.Stack` are proved against. */
module StackProps {
  import opened Net
  import opened ExpiringMap
  import Ethernet
  import Arp
  import Ipv4
  import Icmp
  import opened Network

  // ---- ARP ----

  /** An ARP frame we build reads back, after Ethernet and ARP parsing, as
      the packet we encoded, from our MAC, addressed to `dst`. */
  predicate CarriesArp(f: Bytes, p: Arp.Packet, src: Mac, dst: Mac)
  {
    && Ethernet.Parse(f).Some?
    && Ethernet.Parse(f).value.protocol == PROTOCOL_ARP
    && Ethernet.Parse(f).value.src == src
    && Arp.Decode(Ethernet.Parse(f).value.payload) == Some(p)
    && Ethernet.Dst(f) == dst
  }

  lemma ArpFrameReadsBack(p: Arp.Packet, src: Mac, dst: Mac)
    requires p.opcode == Arp.REQUEST || p.opcode == Arp.REPLY
    ensures CarriesArp(Ethernet.Frame(Arp.Encode(p), dst, src, PROTOCOL_ARP), p, src, dst)
  {
    var e := Arp.Encode(p);
    Ethernet.ParseFrame(e, dst, src, PROTOCOL_ARP);
    Arp.DecodeEncode(p);
    Arp.DecodeExtended(e, Zeros(Ethernet.MIN_DATA - |e|));
  }

  /** arp_req sends one broadcast frame, a request for `target` from our
      pair, which passes arp_in's checks. */
  lemma ArpReqSends(c: Iface, n: NetState, target: Ip)
    ensures var r := ArpReqT(c, n, target);
      && r.(sent := n.sent) == n
      && |r.sent| == |n.sent| + 1 && r.sent[..|n.sent|] == n.sent
      && CarriesArp(r.sent[|n.sent|], Arp.Packet(Arp.REQUEST, c.mac, c.ip, ZERO_MAC, target),
                    c.mac, BROADCAST_MAC)
  {
    ArpFrameReadsBack(Arp.Request(c.mac, c.ip, target), c.mac, BROADCAST_MAC);
  }

  /** arp_resp sends one frame to `targetMac`, a reply from our pair to the
      given pair, which passes arp_in's checks. */
  lemma ArpRespSends(c: Iface, n: NetState, targetIp: Ip, targetMac: Mac)
    ensures var r := ArpRespT(c, n, targetIp, targetMac);
      && r.(sent := n.sent) == n
      && |r.sent| == |n.sent| + 1 && r.sent[..|n.sent|] == n.sent
      && CarriesArp(r.sent[|n.sent|], Arp.Packet(Arp.REPLY, c.mac, c.ip, targetMac, targetIp),
                    c.mac, targetMac)
  {
    ArpFrameReadsBack(Arp.Reply(c.mac, c.ip, targetIp, targetMac), c.mac, targetMac);
  }

  /** arp_in ignores a buffer shorter than an ARP packet or with any of the
      five fixed fields off. */
  lemma ArpInIgnoresInvalid(c: Iface, n: NetState, buf: Bytes, now: nat)
    requires |buf| < Arp.PKT_LEN || !Arp.FixedFieldsOk(buf)
    ensures ArpInT(c, n, buf, now) == n
  {
  }

  /** On a valid packet arp_in records the sender's MAC for the sender's IP,
      whatever the opcode; the entry is then live for the table lifetime. */
  lemma ArpInLearns(c: Iface, n: NetState, buf: Bytes, p: Arp.Packet, now: nat)
    requires Arp.Decode(buf) == Some(p)
    ensures var r := ArpInT(c, n, buf, now);
      && r.arpTable == Put(n.arpTable, p.senderIp, p.senderMac, now)
      && (c.arpTimeout > 0 ==> Get(r.arpTable, p.senderIp, now, c.arpTimeout) == Some(p.senderMac))
  {
    if c.arpTimeout > 0 {
      GetPut(n.arpTable, p.senderIp, p.senderMac, now, now, c.arpTimeout);
    }
  }

  /** With a packet pending for the sender, arp_in sends exactly that packet
      to the sender's MAC as IP, drops the pending entry, and sends no
      ARP reply, even to a request for our address. */
  lemma ArpInReleasesPending(c: Iface, n: NetState, buf: Bytes, p: Arp.Packet, pkt: Bytes, now: nat)
    requires Arp.Decode(buf) == Some(p)
    requires Get(n.arpBuf, p.senderIp, now, c.arpMinInterval) == Some(pkt)
    ensures var r := ArpInT(c, n, buf, now);
      && r.sent == n.sent + [Ethernet.Frame(pkt, p.senderMac, c.mac, PROTOCOL_IP)]
      && r.arpBuf == Delete(n.arpBuf, p.senderIp) && p.senderIp !in r.arpBuf
  {
  }

  /** With nothing pending for the sender, arp_in sends a frame if and only
      if the packet is a request for our address, and that frame is a
      reply from our pair to the sender's pair. */
  lemma ArpInAnswers(c: Iface, n: NetState, buf: Bytes, p: Arp.Packet, now: nat)
    requires Arp.Decode(buf) == Some(p)
    requires Get(n.arpBuf, p.senderIp, now, c.arpMinInterval).None?
    ensures var r := ArpInT(c, n, buf, now);
      && r.arpBuf == n.arpBuf
      && r.sent[..|n.sent|] == n.sent
      && (|r.sent| == |n.sent| + 1 <==> p.opcode == Arp.REQUEST && p.targetIp == c.ip)
      && (|r.sent| != |n.sent| + 1 ==> r.sent == n.sent)
      && (|r.sent| == |n.sent| + 1 ==>
            CarriesArp(r.sent[|n.sent|], Arp.Packet(Arp.REPLY, c.mac, c.ip, p.senderMac, p.senderIp),
                       c.mac, p.senderMac))
  {
    ArpRespSends(c, n.(arpTable := Put(n.arpTable, p.senderIp, p.senderMac, now)), p.senderIp, p.senderMac);
  }

  /** arp_out on a cache hit: the packet goes once to the cached MAC; the
      pending buffer is untouched and no request is sent. */
  lemma ArpOutHit(c: Iface, n: NetState, pkt: Bytes, ip: Ip, mac: Mac, now: nat)
    requires Get(n.arpTable, ip, now, c.arpTimeout) == Some(mac)
    ensures ArpOutT(c, n, pkt, ip, now) == n.(sent := n.sent + [Ethernet.Frame(pkt, mac, c.mac, PROTOCOL_IP)])
  {
  }

  /** arp_out on a miss with a packet already pending: nothing changes. */
  lemma ArpOutPending(c: Iface, n: NetState, pkt: Bytes, ip: Ip, now: nat)
    requires Get(n.arpTable, ip, now, c.arpTimeout).None?
    requires Get(n.arpBuf, ip, now, c.arpMinInterval).Some?
    ensures ArpOutT(c, n, pkt, ip, now) == n
  {
  }

  /** arp_out on a miss with nothing pending: the packet is kept for `ip`
      and exactly one broadcast request for `ip` is sent. */
  lemma ArpOutMiss(c: Iface, n: NetState, pkt: Bytes, ip: Ip, now: nat)
    requires Get(n.arpTable, ip, now, c.arpTimeout).None?
    requires Get(n.arpBuf, ip, now, c.arpMinInterval).None?
    ensures var r := ArpOutT(c, n, pkt, ip, now);
      && r.arpTable == n.arpTable
      && r.arpBuf == Put(n.arpBuf, ip, pkt, now)
      && |r.sent| == |n.sent| + 1 && r.sent[..|n.sent|] == n.sent
      && CarriesArp(r.sent[|n.sent|], Arp.Packet(Arp.REQUEST, c.mac, c.ip, ZERO_MAC, ip), c.mac, BROADCAST_MAC)
  {
    ArpReqSends(c, n.(arpBuf := Put(n.arpBuf, ip, pkt, now)), ip);
  }

  /** arp_init empties both maps and broadcasts one request for our own
      address. */
  lemma ArpInitSends(c: Iface, n: NetState)
    ensures var r := ArpInitT(c, n);
      && r.arpTable == map[] && r.arpBuf == map[] && r.ipId == n.ipId
      && |r.sent| == |n.sent| + 1 && r.sent[..|n.sent|] == n.sent
      && CarriesArp(r.sent[|n.sent|], Arp.Packet(Arp.REQUEST, c.mac, c.ip, ZERO_MAC, c.ip), c.mac, BROADCAST_MAC)
  {
    ArpReqSends(c, n.(arpTable := map[], arpBuf := map[]), c.ip);
  }

  // ---- IP output ----

  /** The frames sent for fragments `fs` when `mac` is cached for their
      destination: one IP frame per fragment, in order, all with identifier `id`. */
  function CachedFrames(c: Iface, fs: seq<Ipv4.Fragment>, dst: Ip, protocol: byte, id: nat, mac: Mac)
    : (frames: seq<Bytes>)
    ensures |frames| == |fs|
  {
    seq(|fs|, i requires 0 <= i < |fs| => FragmentFrame(c, fs[i], dst, protocol, id, mac))
  }

  /** The frame that carries fragment `f` to `mac`. */
  function FragmentFrame(c: Iface, f: Ipv4.Fragment, dst: Ip, protocol: byte, id: nat, mac: Mac): Bytes
  {
    Ethernet.Frame(Ipv4.Datagram(f.data, c.ip, dst, protocol, id, f.offset, f.more), mac, c.mac, PROTOCOL_IP)
  }

  lemma CachedFramesSnoc(c: Iface, fs: seq<Ipv4.Fragment>, dst: Ip, protocol: byte, id: nat, mac: Mac)
    requires fs != []
    ensures var k := |fs| - 1;
      CachedFrames(c, fs, dst, protocol, id, mac)
      == CachedFrames(c, fs[..k], dst, protocol, id, mac) + [FragmentFrame(c, fs[k], dst, protocol, id, mac)]
  {
    var k := |fs| - 1;
    var all := CachedFrames(c, fs, dst, protocol, id, mac);
    var front := CachedFrames(c, fs[..k], dst, protocol, id, mac);
    assert forall i :: 0 <= i < k ==> front[i] == all[i];
    assert front + [all[k]] == all;
  }

  lemma {:induction false} SendFragmentsCached(c: Iface, n: NetState, fs: seq<Ipv4.Fragment>, dst: Ip,
                                               protocol: byte, id: nat, mac: Mac, now: nat)
    requires Get(n.arpTable, dst, now, c.arpTimeout) == Some(mac)
    ensures SendFragmentsT(c, n, fs, dst, protocol, id, now)
            == n.(sent := n.sent + CachedFrames(c, fs, dst, protocol, id, mac))
    decreases |fs|
  {
    if fs != [] {
      var k := |fs| - 1;
      SendFragmentsCached(c, n, fs[..k], dst, protocol, id, mac, now);
      var prev := n.(sent := n.sent + CachedFrames(c, fs[..k], dst, protocol, id, mac));
      var d := Ipv4.Datagram(fs[k].data, c.ip, dst, protocol, id, fs[k].offset, fs[k].more);
      assert SendFragmentsT(c, n, fs, dst, protocol, id, now) == ArpOutT(c, prev, d, dst, now);
      ArpOutHit(c, prev, d, dst, mac, now);
      CachedFramesSnoc(c, fs, dst, protocol, id, mac);
      assert Ethernet.Frame(d, mac, c.mac, PROTOCOL_IP) == FragmentFrame(c, fs[k], dst, protocol, id, mac);
      assert prev.sent + [FragmentFrame(c, fs[k], dst, protocol, id, mac)]
             == n.sent + CachedFrames(c, fs, dst, protocol, id, mac);
    }
  }

  /** ip_out towards a cached destination: one frame per fragment of the
      plan, each carrying the pre-call identifier, and the identifier
      advances by exactly one. */
  lemma IpOutCached(c: Iface, n: NetState, payload: Bytes, dst: Ip, protocol: byte, mac: Mac, now: nat)
    requires Get(n.arpTable, dst, now, c.arpTimeout) == Some(mac)
    ensures IpOutT(c, n, payload, dst, protocol, now)
            == n.(sent := n.sent + CachedFrames(c, Ipv4.Fragments(payload), dst, protocol, n.ipId, mac),
                  ipId := n.ipId + 1)
  {
    SendFragmentsCached(c, n, Ipv4.Fragments(payload), dst, protocol, n.ipId, mac, now);
  }

  /** Every frame of one ip_out call carries the same identifier field: the
      pre-call counter, cut to 16 bits. */
  lemma CachedFramesShareId(c: Iface, fs: seq<Ipv4.Fragment>, dst: Ip, protocol: byte, id: nat, mac: Mac, i: nat)
    requires i < |fs|
    ensures var f := CachedFrames(c, fs, dst, protocol, id, mac)[i];
      |f| >= Ethernet.HDR_LEN + Ipv4.HDR_LEN && Ipv4.Id(f[Ethernet.HDR_LEN..]) == id % 0x10000
  {
    var d := Ipv4.Datagram(fs[i].data, c.ip, dst, protocol, id, fs[i].offset, fs[i].more);
    Ipv4.HeaderFields(fs[i].data, c.ip, dst, protocol, id, fs[i].offset, fs[i].more);
    var p := Ethernet.Padded(d);
    assert p[..|d|] == d;
    assert p[4] == d[4] && p[5] == d[5];
  }

  lemma {:induction false} SendFragmentsPending(c: Iface, n: NetState, fs: seq<Ipv4.Fragment>, dst: Ip,
                                                protocol: byte, id: nat, now: nat)
    requires Get(n.arpTable, dst, now, c.arpTimeout).None?
    requires Get(n.arpBuf, dst, now, c.arpMinInterval).Some?
    ensures SendFragmentsT(c, n, fs, dst, protocol, id, now) == n
    decreases |fs|
  {
    if fs != [] {
      SendFragmentsPending(c, n, fs[..|fs| - 1], dst, protocol, id, now);
    }
  }

  /** ip_out towards an unresolved destination with a packet already
      pending for it: every fragment is dropped; only the identifier moves. */
  lemma IpOutPending(c: Iface, n: NetState, payload: Bytes, dst: Ip, protocol: byte, now: nat)
    requires Get(n.arpTable, dst, now, c.arpTimeout).None?
    requires Get(n.arpBuf, dst, now, c.arpMinInterval).Some?
    ensures IpOutT(c, n, payload, dst, protocol, now) == n.(ipId := n.ipId + 1)
  {
    SendFragmentsPending(c, n, Ipv4.Fragments(payload), dst, protocol, n.ipId, now);
  }

  /** The state after the first fragment towards an unresolved destination
      with nothing pending: that datagram pending, one request sent. */
  function FirstPending(c: Iface, n: NetState, f: Ipv4.Fragment, dst: Ip, protocol: byte, id: nat,
                        now: nat): NetState
  {
    ArpReqT(c, n.(arpBuf := Put(n.arpBuf, dst, Ipv4.Datagram(f.data, c.ip, dst, protocol, id, f.offset, f.more), now)), dst)
  }

  lemma {:induction false} SendFragmentsUnresolved(c: Iface, n: NetState, fs: seq<Ipv4.Fragment>, dst: Ip,
                                                   protocol: byte, id: nat, now: nat)
    requires fs != [] && c.arpMinInterval > 0
    requires Get(n.arpTable, dst, now, c.arpTimeout).None?
    requires Get(n.arpBuf, dst, now, c.arpMinInterval).None?
    ensures SendFragmentsT(c, n, fs, dst, protocol, id, now) == FirstPending(c, n, fs[0], dst, protocol, id, now)
    decreases |fs|
  {
    var k := |fs| - 1;
    if k == 0 {
      assert fs[..k] == [];
    } else {
      SendFragmentsUnresolved(c, n, fs[..k], dst, protocol, id, now);
      var first := FirstPending(c, n, fs[0], dst, protocol, id, now);
      var d := Ipv4.Datagram(fs[0].data, c.ip, dst, protocol, id, fs[0].offset, fs[0].more);
      GetPut(n.arpBuf, dst, d, now, now, c.arpMinInterval);
      assert Get(first.arpBuf, dst, now, c.arpMinInterval).Some?;
    }
  }

  /** ip_out towards an unresolved destination with nothing pending: only
      the first fragment is kept pending, one ARP request for `dst` is sent,
      and every later fragment is dropped (arp_out finds the first pending). */
  lemma IpOutUnresolved(c: Iface, n: NetState, payload: Bytes, dst: Ip, protocol: byte, now: nat)
    requires c.arpMinInterval > 0
    requires Get(n.arpTable, dst, now, c.arpTimeout).None?
    requires Get(n.arpBuf, dst, now, c.arpMinInterval).None?
    ensures var r := IpOutT(c, n, payload, dst, protocol, now);
      var f := Ipv4.Fragments(payload)[0];
      && r.arpBuf == Put(n.arpBuf, dst, Ipv4.Datagram(f.data, c.ip, dst, protocol, n.ipId, f.offset, f.more), now)
      && r.arpTable == n.arpTable && r.ipId == n.ipId + 1
      && |r.sent| == |n.sent| + 1 && r.sent[..|n.sent|] == n.sent
      && CarriesArp(r.sent[|n.sent|], Arp.Packet(Arp.REQUEST, c.mac, c.ip, ZERO_MAC, dst), c.mac, BROADCAST_MAC)
  {
    var fs := Ipv4.Fragments(payload);
    SendFragmentsUnresolved(c, n, fs, dst, protocol, n.ipId, now);
    var d := Ipv4.Datagram(fs[0].data, c.ip, dst, protocol, n.ipId, fs[0].offset, fs[0].more);
    ArpReqSends(c, n.(arpBuf := Put(n.arpBuf, dst, d, now)), dst);
  }

  // ---- ICMP ----

  /** icmp_in ignores a message shorter than the ICMP header and every type
      but echo request. */
  lemma IcmpInIgnores(c: Iface, n: NetState, buf: Bytes, srcIp: Ip, now: nat)
    requires |buf| < Icmp.HDR_LEN || buf[0] != Icmp.TYPE_ECHO_REQUEST
    ensures IcmpInT(c, n, buf, srcIp, now) == n
  {
  }

  /** icmp_in answers an echo request to a cached sender with one frame:
      the echo reply in a single unfragmented datagram with the current
      identifier, addressed to the requester. */
  lemma IcmpEchoCached(c: Iface, n: NetState, req: Bytes, srcIp: Ip, mac: Mac, now: nat)
    requires Icmp.HDR_LEN <= |req| <= Ipv4.MAX_PAYLOAD && req[0] == Icmp.TYPE_ECHO_REQUEST
    requires Get(n.arpTable, srcIp, now, c.arpTimeout) == Some(mac)
    ensures IcmpInT(c, n, req, srcIp, now)
            == n.(sent := n.sent + [Ethernet.Frame(Ipv4.Datagram(Icmp.EchoReply(req), c.ip, srcIp, PROTOCOL_ICMP,
                                                                 n.ipId, 0, false), mac, c.mac, PROTOCOL_IP)],
                  ipId := n.ipId + 1)
  {
    var reply := Icmp.EchoReply(req);
    IpOutCached(c, n, reply, srcIp, PROTOCOL_ICMP, mac, now);
    assert Ipv4.Fragments(reply) == [Ipv4.Fragment(reply, 0, false)];
  }

  /** icmp_unreachable to a cached sender: one frame carrying the 36-byte
      (for a datagram of at least 28 bytes) unreachable message. */
  lemma IcmpUnreachableCached(c: Iface, n: NetState, recv: Bytes, srcIp: Ip, code: byte, mac: Mac, now: nat)
    requires Get(n.arpTable, srcIp, now, c.arpTimeout) == Some(mac)
    ensures IcmpUnreachableT(c, n, recv, srcIp, code, now)
            == n.(sent := n.sent + [Ethernet.Frame(Ipv4.Datagram(Icmp.Unreachable(recv, code), c.ip, srcIp,
                                                                 PROTOCOL_ICMP, n.ipId, 0, false),
                                                   mac, c.mac, PROTOCOL_IP)],
                  ipId := n.ipId + 1)
  {
    var msg := Icmp.Unreachable(recv, code);
    IpOutCached(c, n, msg, srcIp, PROTOCOL_ICMP, mac, now);
    assert Ipv4.Fragments(msg) == [Ipv4.Fragment(msg, 0, false)];
  }

  // ---- IP input ----

  /** ip_in drops, silently and without any state change, a buffer shorter
      than the header, a version other than 4, a bad header checksum, a
      destination other than our address, and a runt total length. */
  lemma IpInDrops(c: Iface, n: NetState, b: Bytes, now: nat)
    requires var v := Ipv4.Inspect(b, c.ip);
      v.TooShort? || v.BadVersion? || v.BadChecksum? || v.NotForUs? || v.Runt?
    ensures IpInT(c, n, b, now) == n
  {
  }

  /** Drop on corruption: a datagram ip_in would act on (deliver, or answer
      as unreachable) with any one byte of its header changed is dropped,
      leaving the whole state unchanged. */
  lemma IpInDropsCorruptedHeader(c: Iface, n: NetState, b: Bytes, b2: Bytes, j: nat, now: nat)
    requires Ipv4.Inspect(b, c.ip).Deliver? || Ipv4.Inspect(b, c.ip).Unreachable?
    requires |b2| == |b| && j < Ipv4.HDR_LEN && j < |b| && b2[j] != b[j]
    requires forall i :: 0 <= i < |b| && i != j ==> b2[i] == b[i]
    ensures IpInT(c, n, b2, now) == n
  {
    Ipv4.HeaderByteChangeDetected(b, b2, j);
    IpInDrops(c, n, b2, now);
  }

  /** A protocol other than ICMP and UDP: exactly one protocol-unreachable
      message goes to the datagram's source, quoting the trimmed datagram
      from its header on; nothing is delivered upwards. */
  lemma IpInUnreachable(c: Iface, n: NetState, b: Bytes, now: nat)
    requires Ipv4.Inspect(b, c.ip).Unreachable?
    ensures |b| >= Ipv4.HDR_LEN
    ensures var r := IpInT(c, n, b, now);
      && r == IcmpUnreachableT(c, n, b[..Ipv4.TrimmedLen(b)], Ipv4.Src(b), Icmp.CODE_PROTOCOL_UNREACH, now)
      && r.delivered == n.delivered && r.ipId == n.ipId + 1
      && Icmp.Unreachable(b[..Ipv4.TrimmedLen(b)], Icmp.CODE_PROTOCOL_UNREACH)[Icmp.HDR_LEN..]
         == b[..Icmp.Min(Ipv4.TrimmedLen(b), Icmp.QUOTE_LEN)]
  {
  }

  /** An accepted ICMP or UDP datagram is delivered once, as the bytes
      between the header and the total length, with the header's protocol
      and source address. */
  lemma IpInDelivers(c: Iface, n: NetState, b: Bytes, now: nat)
    requires Ipv4.Inspect(b, c.ip).Deliver?
    ensures |b| >= Ipv4.HDR_LEN && Ipv4.HDR_LEN <= Ipv4.TrimmedLen(b)
    ensures var r := IpInT(c, n, b, now);
      && r.delivered
         == n.delivered + [Delivery(Ipv4.Protocol(b), b[Ipv4.HDR_LEN..Ipv4.TrimmedLen(b)], Ipv4.Src(b))]
  {
  }

  // ---- Ethernet ----

  /** ethernet_out adds one frame and changes nothing else. */
  lemma EthernetOutSends(c: Iface, n: NetState, payload: Bytes, dst: Mac, protocol: nat)
    requires protocol < 0x10000
    ensures var r := EthernetOutT(c, n, payload, dst, protocol);
      && r.(sent := n.sent) == n
      && |r.sent| == |n.sent| + 1 && r.sent[..|n.sent|] == n.sent
      && Ethernet.Parse(r.sent[|n.sent|]) == Some(Ethernet.Received(Ethernet.Padded(payload), protocol, c.mac))
      && Ethernet.Dst(r.sent[|n.sent|]) == dst
  {
    Ethernet.ParseFrame(payload, dst, c.mac, protocol);
  }

  /** A frame as ethernet_out builds it, received by ethernet_in, is passed
      up as the padded payload with the same type and the builder's MAC. */
  lemma EthernetRoundTrip(c: Iface, n: NetState, payload: Bytes, dst: Mac, src: Mac, protocol: nat, now: nat)
    requires protocol < 0x10000
    ensures var r := EthernetInT(c, n, Ethernet.Frame(payload, dst, src, protocol), now);
      |n.delivered| < |r.delivered|
      && r.delivered[|n.delivered|] == Delivery(protocol, Ethernet.Padded(payload), src)
  {
    Ethernet.ParseFrame(payload, dst, src, protocol);
  }

  // ---- End to end ----

  /** ip_in on a datagram that carries an echo request for us from a
      cached peer: the request is delivered, and one frame with the echo
      reply goes back. */
  lemma IpInEcho(c: Iface, n: NetState, b: Bytes, req: Bytes, peerIp: Ip, peerMac: Mac, now: nat)
    requires Ipv4.Inspect(b, c.ip) == Ipv4.Deliver(PROTOCOL_ICMP, req, peerIp)
    requires Icmp.HDR_LEN <= |req| <= Ipv4.MAX_PAYLOAD && req[0] == Icmp.TYPE_ECHO_REQUEST
    requires Get(n.arpTable, peerIp, now, c.arpTimeout) == Some(peerMac)
    ensures IpInT(c, n, b, now)
            == n.(delivered := n.delivered + [Delivery(PROTOCOL_ICMP, req, peerIp)],
                  sent := n.sent + [Ethernet.Frame(Ipv4.Datagram(Icmp.EchoReply(req), c.ip, peerIp, PROTOCOL_ICMP,
                                                                 n.ipId, 0, false), peerMac, c.mac, PROTOCOL_IP)],
                  ipId := n.ipId + 1)
  {
    var logged := n.(delivered := n.delivered + [Delivery(PROTOCOL_ICMP, req, peerIp)]);
    assert IpInT(c, n, b, now) == NetInT(c, n, PROTOCOL_ICMP, req, peerIp, now);
    assert peerIp[..IP_LEN] == peerIp;
    assert NetInT(c, n, PROTOCOL_ICMP, req, peerIp, now) == IcmpInT(c, logged, req, peerIp, now);
    IcmpEchoCached(c, logged, req, peerIp, peerMac, now);
  }

  /** A ping: an echo request from a peer whose MAC is cached, framed and
      addressed to us, makes the stack send exactly one frame back to that
      MAC, holding the echo reply with the current identifier. */
  lemma PingAnswered(c: Iface, n: NetState, req: Bytes, peerIp: Ip, peerMac: Mac, id: nat, now: nat)
    requires Icmp.HDR_LEN <= |req| <= Ipv4.MAX_PAYLOAD && req[0] == Icmp.TYPE_ECHO_REQUEST
    requires Get(n.arpTable, peerIp, now, c.arpTimeout) == Some(peerMac)
    ensures var frame := Ethernet.Frame(Ipv4.Datagram(req, peerIp, c.ip, PROTOCOL_ICMP, id, 0, false),
                                        c.mac, peerMac, PROTOCOL_IP);
      var r := EthernetInT(c, n, frame, now);
      && r.sent == n.sent + [Ethernet.Frame(Ipv4.Datagram(Icmp.EchoReply(req), c.ip, peerIp, PROTOCOL_ICMP,
                                                          n.ipId, 0, false), peerMac, c.mac, PROTOCOL_IP)]
      && r.ipId == n.ipId + 1 && r.arpTable == n.arpTable && r.arpBuf == n.arpBuf
  {
    var d := Ipv4.Datagram(req, peerIp, c.ip, PROTOCOL_ICMP, id, 0, false);
    var frame := Ethernet.Frame(d, c.mac, peerMac, PROTOCOL_IP);
    Ethernet.ParseFrame(d, c.mac, peerMac, PROTOCOL_IP);
    var padded := Ethernet.Padded(d);
    var pad := if |d| < Ethernet.MIN_DATA then Ethernet.MIN_DATA - |d| else 0;
    assert padded == d + Zeros(pad);
    Ipv4.InspectPaddedDatagram(req, peerIp, c.ip, PROTOCOL_ICMP, id, 0, false, pad);
    var logged := n.(delivered := n.delivered + [Delivery(PROTOCOL_IP, padded, peerMac)]);
    assert EthernetInT(c, n, frame, now) == NetInT(c, n, PROTOCOL_IP, padded, peerMac, now);
    assert NetInT(c, n, PROTOCOL_IP, padded, peerMac, now) == IpInT(c, logged, padded, now);
    IpInEcho(c, logged, padded, req, peerIp, peerMac, now);
  }

  // ---- Findings ----

  /** As written, icmp_unreachable copies 28 bytes of the received datagram
      whatever its length: the copy is defined only on 28 bytes or more. On
      such inputs it agrees with the corrected `Icmp.Unreachable`. */
  function UnreachableAsWritten(recv: Bytes, code: byte): (m: Bytes)
    requires |recv| >= Icmp.QUOTE_LEN
    ensures |m| == Icmp.HDR_LEN + Icmp.QUOTE_LEN && m == Icmp.Unreachable(recv, code)
  {
    Icmp.WithChecksum([Icmp.TYPE_UNREACH, code, 0, 0, 0, 0, 0, 0] + recv[..Icmp.QUOTE_LEN])
  }

  /** A well-formed 20-byte TCP datagram for us reaches icmp_unreachable
      with fewer than 28 bytes, outside the domain of the as-written copy. */
  lemma UnreachableOverRead(src: Ip, local: Ip)
    ensures var d := Ipv4.Datagram([], src, local, 6, 0, 0, false);
      && Ipv4.Inspect(d, local) == Ipv4.Unreachable(src)
      && Ipv4.TrimmedLen(d) < Icmp.QUOTE_LEN
  {
    Ipv4.HeaderFields([], src, local, 6, 0, 0, false);
  }

  /** As written, ip_in removes the 20-byte header from the trimmed buffer:
      defined only when the trimmed length is at least 20. On such inputs
      the result is the payload the corrected `Ipv4.Inspect` delivers. */
  function StripHeaderAsWritten(b: Bytes): (payload: Bytes)
    requires |b| >= Ipv4.HDR_LEN && Ipv4.TrimmedLen(b) >= Ipv4.HDR_LEN
    ensures |payload| == Ipv4.TrimmedLen(b) - Ipv4.HDR_LEN
    ensures Ipv4.Inspect(b, Ipv4.DstOf(b)).Deliver? ==> payload == Ipv4.Inspect(b, Ipv4.DstOf(b)).payload
  {
    b[Ipv4.HDR_LEN..Ipv4.TrimmedLen(b)]
  }

  /** A 20-byte ICMP header for us with a correct checksum but a total
      length field of 0 passes every guard of ip_in, and its trimmed length
      is below 20, outside the domain of the as-written header removal; the
      corrected model drops it. */
  lemma RuntTotalLength(src: Ip, local: Ip)
    ensures var h := Ipv4.Header(0x10000 - Ipv4.HDR_LEN, 0, 0, false, PROTOCOL_ICMP, src, local);
      && |h| == Ipv4.HDR_LEN
      && Ipv4.Version(h) == Ipv4.VERSION_4 && Ipv4.ChecksumOk(h) && Ipv4.DstOf(h) == local
      && Ipv4.Protocol(h) == PROTOCOL_ICMP
      && Ipv4.TrimmedLen(h) < Ipv4.HDR_LEN
      && Ipv4.Inspect(h, local) == Ipv4.Runt
  {
    Ipv4.HeaderFields(Zeros(0x10000 - Ipv4.HDR_LEN), src, local, PROTOCOL_ICMP, 0, 0, false);
    var h := Ipv4.Header(0x10000 - Ipv4.HDR_LEN, 0, 0, false, PROTOCOL_ICMP, src, local);
    var d := Ipv4.Datagram(Zeros(0x10000 - Ipv4.HDR_LEN), src, local, PROTOCOL_ICMP, 0, 0, false);
    assert d[..Ipv4.HDR_LEN] == h;
    assert h[12..16] == d[12..16] && h[16..20] == d[16..20];
    assert U16(h, 2) == U16(d, 2) && U16(h, Ipv4.CHECKSUM_AT) == U16(d, Ipv4.CHECKSUM_AT);
    assert h[..Ipv4.HDR_LEN] == h;
  }
}
