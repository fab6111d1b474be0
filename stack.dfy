/** The network-layer state machine: the ARP table, the pending-packet
    buffer, the datagram identifier counter, and what the stack hands to the
    driver and to upper layers.

    Each C function is a method of class `Stack` that changes the fields as
    the C code changes the globals, and each method is proved against a
    transition function on `NetState` values (suffix `T`) stating the whole
    new state in terms of the old one. */
module Network {
  import opened Net
  import opened ExpiringMap
  import Checksum
  import Ethernet
  import Arp
  import Ipv4
  import Icmp

  /** The interface configuration: our addresses and the two map lifetimes
      (ARP_TIMEOUT_SEC for the table, ARP_MIN_INTERVAL for the pending buffer). */
  datatype Iface = Iface(ip: Ip, mac: Mac, arpTimeout: nat, arpMinInterval: nat)

  /** One net_in call: a buffer handed to the handler registered for `protocol`,
      with the sender's address (a MAC from Ethernet, an IP from IP). */
  datatype Delivery = Delivery(protocol: nat, payload: Bytes, src: Bytes)

  datatype NetState = NetState(
    arpTable: Table<Ip, Mac>,
    arpBuf: Table<Ip, Bytes>,
    ipId: nat,
    sent: seq<Bytes>,          // frames handed to driver_send, oldest first
    delivered: seq<Delivery>)  // net_in calls, oldest first

  // ---- Ethernet ----

  /** ethernet_out: one frame to the driver. */
  function EthernetOutT(c: Iface, n: NetState, payload: Bytes, dst: Mac, protocol: nat): (r: NetState)
    requires protocol < 0x10000
  {
    n.(sent := n.sent + [Ethernet.Frame(payload, dst, c.mac, protocol)])
  }

  // ---- ARP ----

  /** arp_req: broadcast a request for `target`. */
  function ArpReqT(c: Iface, n: NetState, target: Ip): NetState
  {
    EthernetOutT(c, n, Arp.Encode(Arp.Request(c.mac, c.ip, target)), BROADCAST_MAC, PROTOCOL_ARP)
  }

  /** arp_resp: unicast a reply to `targetMac`. */
  function ArpRespT(c: Iface, n: NetState, targetIp: Ip, targetMac: Mac): NetState
  {
    EthernetOutT(c, n, Arp.Encode(Arp.Reply(c.mac, c.ip, targetIp, targetMac)), targetMac, PROTOCOL_ARP)
  }

  /** arp_in: learn the sender's mapping, then release the packet pending for
      the sender, or else answer a request for our address. */
  function ArpInT(c: Iface, n: NetState, buf: Bytes, now: nat): (r: NetState)
    ensures r.ipId == n.ipId && r.delivered == n.delivered
  {
    match Arp.Decode(buf)
    case None => n
    case Some(p) =>
      var learned := n.(arpTable := Put(n.arpTable, p.senderIp, p.senderMac, now));
      match Get(n.arpBuf, p.senderIp, now, c.arpMinInterval)
      case Some(pending) =>
        EthernetOutT(c, learned, pending, p.senderMac, PROTOCOL_IP).(arpBuf := Delete(n.arpBuf, p.senderIp))
      case None =>
        if p.opcode == Arp.REQUEST && p.targetIp == c.ip then ArpRespT(c, learned, p.senderIp, p.senderMac)
        else learned
  }

  /** arp_out: send on a cache hit; on a miss drop the packet if one is already
      pending for `ip`, else keep it pending and broadcast a request. */
  function ArpOutT(c: Iface, n: NetState, pkt: Bytes, ip: Ip, now: nat): (r: NetState)
    ensures r.ipId == n.ipId && r.delivered == n.delivered && r.arpTable == n.arpTable
    ensures |n.sent| <= |r.sent| <= |n.sent| + 1 && r.sent[..|n.sent|] == n.sent
  {
    match Get(n.arpTable, ip, now, c.arpTimeout)
    case Some(mac) => EthernetOutT(c, n, pkt, mac, PROTOCOL_IP)
    case None =>
      if Get(n.arpBuf, ip, now, c.arpMinInterval).Some? then n
      else ArpReqT(c, n.(arpBuf := Put(n.arpBuf, ip, pkt, now)), ip)
  }

  /** arp_init: both maps empty, then a request for our own address. */
  function ArpInitT(c: Iface, n: NetState): NetState
  {
    ArpReqT(c, n.(arpTable := map[], arpBuf := map[]), c.ip)
  }

  // ---- IP output ----

  /** ip_fragment_out: add the header, hand the datagram to arp_out. */
  function FragmentOutT(c: Iface, n: NetState, f: Ipv4.Fragment, dst: Ip, protocol: byte, id: nat,
                        now: nat): NetState
  {
    ArpOutT(c, n, Ipv4.Datagram(f.data, c.ip, dst, protocol, id, f.offset, f.more), dst, now)
  }

  /** The fragments `fs`, sent in order, all with identifier `id`. */
  function SendFragmentsT(c: Iface, n: NetState, fs: seq<Ipv4.Fragment>, dst: Ip, protocol: byte,
                          id: nat, now: nat): (r: NetState)
    ensures r.ipId == n.ipId && r.delivered == n.delivered && r.arpTable == n.arpTable
    ensures |n.sent| <= |r.sent| <= |n.sent| + |fs| && r.sent[..|n.sent|] == n.sent
    decreases |fs|
  {
    if fs == [] then n
    else FragmentOutT(c, SendFragmentsT(c, n, fs[..|fs| - 1], dst, protocol, id, now), fs[|fs| - 1],
                      dst, protocol, id, now)
  }

  /** Sending one more fragment extends the run by that fragment. */
  lemma SendFragmentsSnoc(c: Iface, n: NetState, fs: seq<Ipv4.Fragment>, i: nat, dst: Ip,
                          protocol: byte, id: nat, now: nat)
    requires i < |fs|
    ensures SendFragmentsT(c, n, fs[..i + 1], dst, protocol, id, now)
            == FragmentOutT(c, SendFragmentsT(c, n, fs[..i], dst, protocol, id, now), fs[i], dst, protocol, id, now)
  {
    assert fs[..i + 1][..i] == fs[..i];
  }

  /** ip_out: the fragment plan sent with the current identifier, which then
      advances by one. */
  function IpOutT(c: Iface, n: NetState, payload: Bytes, dst: Ip, protocol: byte, now: nat): (r: NetState)
    ensures r.ipId == n.ipId + 1 && r.delivered == n.delivered && r.arpTable == n.arpTable
  {
    SendFragmentsT(c, n, Ipv4.Fragments(payload), dst, protocol, n.ipId, now).(ipId := n.ipId + 1)
  }

  // ---- ICMP ----

  /** icmp_resp: the echo reply goes back to the requester over IP. */
  function IcmpRespT(c: Iface, n: NetState, req: Bytes, srcIp: Ip, now: nat): NetState
    requires |req| >= Icmp.HDR_LEN
  {
    IpOutT(c, n, Icmp.EchoReply(req), srcIp, PROTOCOL_ICMP, now)
  }

  /** icmp_in: only an echo request of at least 8 bytes gets a response. */
  function IcmpInT(c: Iface, n: NetState, buf: Bytes, srcIp: Ip, now: nat): (r: NetState)
    ensures r.delivered == n.delivered
  {
    if |buf| < Icmp.HDR_LEN then n
    else if buf[0] == Icmp.TYPE_ECHO_REQUEST then IcmpRespT(c, n, buf, srcIp, now)
    else n
  }

  /** icmp_unreachable: the unreachable message goes to `srcIp` over IP. */
  function IcmpUnreachableT(c: Iface, n: NetState, recv: Bytes, srcIp: Ip, code: byte, now: nat): (r: NetState)
    ensures r.delivered == n.delivered && r.ipId == n.ipId + 1
  {
    IpOutT(c, n, Icmp.Unreachable(recv, code), srcIp, PROTOCOL_ICMP, now)
  }

  // ---- Input path ----

  /** ip_in: act on ip_in's verdict. The unreachable message quotes the
      datagram after its padding has been removed. */
  function IpInT(c: Iface, n: NetState, b: Bytes, now: nat): (r: NetState)
    ensures |n.delivered| <= |r.delivered| && r.delivered[..|n.delivered|] == n.delivered
    decreases 1
  {
    match Ipv4.Inspect(b, c.ip)
    case Unreachable(src) => IcmpUnreachableT(c, n, b[..Ipv4.TrimmedLen(b)], src, Icmp.CODE_PROTOCOL_UNREACH, now)
    case Deliver(protocol, payload, src) => NetInT(c, n, protocol, payload, src, now)
    case _ => n
  }

  /** net_in: record the delivery and run the handler registered for the
      protocol (ARP and IP from Ethernet, ICMP from IP; UDP has no handler here). */
  function NetInT(c: Iface, n: NetState, protocol: nat, buf: Bytes, src: Bytes, now: nat): (r: NetState)
    ensures |n.delivered| < |r.delivered|
    ensures r.delivered[..|n.delivered| + 1] == n.delivered + [Delivery(protocol, buf, src)]
    decreases if protocol == PROTOCOL_IP then 2 else 0
  {
    var logged := n.(delivered := n.delivered + [Delivery(protocol, buf, src)]);
    if protocol == PROTOCOL_ARP then ArpInT(c, logged, buf, now)
    else if protocol == PROTOCOL_IP then IpInT(c, logged, buf, now)
    else if protocol == PROTOCOL_ICMP && |src| >= IP_LEN then IcmpInT(c, logged, buf, src[..IP_LEN], now)
    else logged
  }

  /** ethernet_in: strip the header and pass the rest up. */
  function EthernetInT(c: Iface, n: NetState, frame: Bytes, now: nat): (r: NetState)
    ensures |frame| < Ethernet.HDR_LEN ==> r == n
    ensures |frame| >= Ethernet.HDR_LEN ==>
              |n.delivered| < |r.delivered|
              && r.delivered[|n.delivered|] == Delivery(U16(frame, 12), frame[Ethernet.HDR_LEN..], frame[6..12])
  {
    match Ethernet.Parse(frame)
    case None => n
    case Some(r) => NetInT(c, n, r.protocol, r.payload, r.src, now)
  }

  /** ip_in's checksum step, in place: save the field, zero it, checksum the
      header, and put the saved value back only when the two agree. */
  method CheckHeaderChecksum(buf: array<byte>) returns (ok: bool)
    requires buf.Length >= Ipv4.HDR_LEN
    modifies buf
    ensures ok == Ipv4.ChecksumOk(old(buf[..]))
    ensures buf[..] == if ok then old(buf[..]) else Set16(old(buf[..]), Ipv4.CHECKSUM_AT, 0)
  {
    ghost var raw := buf[..];
    var saved := (buf[Ipv4.CHECKSUM_AT] as int) * 256 + buf[Ipv4.CHECKSUM_AT + 1];
    buf[Ipv4.CHECKSUM_AT], buf[Ipv4.CHECKSUM_AT + 1] := 0, 0;
    assert buf[..] == Set16(raw, Ipv4.CHECKSUM_AT, 0);
    assert buf[..Ipv4.HDR_LEN] == Set16(raw[..Ipv4.HDR_LEN], Ipv4.CHECKSUM_AT, 0);
    var computed := Checksum.Checksum16(buf[..Ipv4.HDR_LEN]);
    ok := computed == saved;
    if ok {
      buf[Ipv4.CHECKSUM_AT], buf[Ipv4.CHECKSUM_AT + 1] := saved / 256, saved % 256;
      assert buf[..] == raw;
    }
  }

  /** The stack's process-wide state, held by one object. */
  class Stack {
    const localIp: Ip
    const localMac: Mac
    const arpTimeout: nat
    const arpMinInterval: nat

    var arpTable: Table<Ip, Mac>
    var arpBuf: Table<Ip, Bytes>
    var ipId: nat
    var sent: seq<Bytes>
    var delivered: seq<Delivery>

    function Cfg(): Iface
    {
      Iface(localIp, localMac, arpTimeout, arpMinInterval)
    }

    function State(): NetState
      reads this
    {
      NetState(arpTable, arpBuf, ipId, sent, delivered)
    }

    /** The globals as the program starts: empty maps, ip_id 0, nothing sent. */
    constructor (ip: Ip, mac: Mac, tableTimeout: nat, pendingInterval: nat)
      ensures Cfg() == Iface(ip, mac, tableTimeout, pendingInterval)
      ensures State() == NetState(map[], map[], 0, [], [])
    {
      localIp, localMac := ip, mac;
      arpTimeout, arpMinInterval := tableTimeout, pendingInterval;
      arpTable, arpBuf := map[], map[];
      ipId := 0;
      sent, delivered := [], [];
    }

    method EthernetOut(payload: Bytes, dst: Mac, protocol: nat)
      requires protocol < 0x10000
      modifies this
      ensures State() == EthernetOutT(Cfg(), old(State()), payload, dst, protocol)
    {
      var buf := payload;
      if |buf| < Ethernet.MIN_DATA {
        buf := buf + Zeros(Ethernet.MIN_DATA - |buf|);
      }
      buf := dst + localMac + Be16(protocol) + buf;
      sent := sent + [buf];
    }

    method ArpReq(target: Ip)
      modifies this
      ensures State() == ArpReqT(Cfg(), old(State()), target)
    {
      var tx := new byte[Arp.PKT_LEN];
      Arp.WritePacket(tx, Arp.Request(localMac, localIp, target));
      EthernetOut(tx[..], BROADCAST_MAC, PROTOCOL_ARP);
    }

    method ArpResp(targetIp: Ip, targetMac: Mac)
      modifies this
      ensures State() == ArpRespT(Cfg(), old(State()), targetIp, targetMac)
    {
      var tx := new byte[Arp.PKT_LEN];
      Arp.WritePacket(tx, Arp.Reply(localMac, localIp, targetIp, targetMac));
      EthernetOut(tx[..], targetMac, PROTOCOL_ARP);
    }

    method ArpIn(buf: Bytes, now: nat)
      modifies this
      ensures State() == ArpInT(Cfg(), old(State()), buf, now)
    {
      if |buf| < Arp.PKT_LEN || !Arp.FixedFieldsOk(buf) {
        return;
      }
      var senderMac: Mac, senderIp: Ip := buf[8..14], buf[14..18];
      arpTable := Put(arpTable, senderIp, senderMac, now);
      var pending := Get(arpBuf, senderIp, now, arpMinInterval);
      if pending.Some? {
        EthernetOut(pending.value, senderMac, PROTOCOL_IP);
        arpBuf := Delete(arpBuf, senderIp);
      } else if U16(buf, 6) == Arp.REQUEST && buf[24..28] == localIp {
        ArpResp(senderIp, senderMac);
      }
    }

    method ArpOut(pkt: Bytes, ip: Ip, now: nat)
      modifies this
      ensures State() == ArpOutT(Cfg(), old(State()), pkt, ip, now)
    {
      var mac := Get(arpTable, ip, now, arpTimeout);
      if mac.Some? {
        EthernetOut(pkt, mac.value, PROTOCOL_IP);
      } else {
        var pending := Get(arpBuf, ip, now, arpMinInterval);
        if pending.Some? {
          return;
        }
        arpBuf := Put(arpBuf, ip, pkt, now);
        ArpReq(ip);
      }
    }

    method ArpInit()
      modifies this
      ensures State() == ArpInitT(Cfg(), old(State()))
    {
      arpTable := map[];
      arpBuf := map[];
      ArpReq(localIp);
    }

    method IpFragmentOut(data: Bytes, dst: Ip, protocol: byte, id: nat, offset: nat, more: bool, now: nat)
      modifies this
      ensures State() == FragmentOutT(Cfg(), old(State()), Ipv4.Fragment(data, offset, more), dst, protocol, id, now)
    {
      var buf := new byte[Ipv4.HDR_LEN + |data|];
      CopyIn(buf, Ipv4.HDR_LEN, data);
      assert buf[Ipv4.HDR_LEN..] == data;
      Ipv4.WriteHeader(buf, id, offset, more, protocol, localIp, dst);
      assert buf[..] == Ipv4.Datagram(data, localIp, dst, protocol, id, offset, more);
      ArpOut(buf[..], dst, now);
    }

    /** ip_out's fragmenting branch: the loop over the full 1480-byte chunks
        (MF set), then the remainder (MF clear), all with identifier `id`. */
    method SendFragments(payload: Bytes, dst: Ip, protocol: byte, id: nat, now: nat)
      requires |payload| > Ipv4.MAX_PAYLOAD
      modifies this
      ensures State() == SendFragmentsT(Cfg(), old(State()), Ipv4.Fragments(payload), dst, protocol, id, now)
    {
      ghost var s0 := State();
      ghost var fs := Ipv4.Fragments(payload);
      var count := |payload| / Ipv4.MAX_PAYLOAD + 1;
      for i := 0 to count - 1
        invariant State() == SendFragmentsT(Cfg(), s0, fs[..i], dst, protocol, id, now)
      {
        Ipv4.FullFragment(payload, i);
        var offset := i * Ipv4.MAX_PAYLOAD;
        IpFragmentOut(payload[offset..offset + Ipv4.MAX_PAYLOAD], dst, protocol, id,
                      offset / Ipv4.OFFSET_UNIT, true, now);
        SendFragmentsSnoc(Cfg(), s0, fs, i, dst, protocol, id, now);
      }
      Ipv4.LastFragment(payload);
      var endOffset := (count - 1) * Ipv4.MAX_PAYLOAD;
      IpFragmentOut(payload[endOffset..], dst, protocol, id, endOffset / Ipv4.OFFSET_UNIT, false, now);
      SendFragmentsSnoc(Cfg(), s0, fs, count - 1, dst, protocol, id, now);
      assert fs[..count] == fs;
    }

    method IpOut(payload: Bytes, dst: Ip, protocol: byte, now: nat)
      modifies this
      ensures State() == IpOutT(Cfg(), old(State()), payload, dst, protocol, now)
    {
      var id := ipId;
      if |payload| > Ipv4.MAX_PAYLOAD {
        SendFragments(payload, dst, protocol, id, now);
      } else {
        ghost var s0 := State();
        ghost var fs := Ipv4.Fragments(payload);
        IpFragmentOut(payload, dst, protocol, id, 0, false, now);
        SendFragmentsSnoc(Cfg(), s0, fs, 0, dst, protocol, id, now);
        assert fs[..1] == fs && fs[..0] == [];
      }
      ipId := id + 1;
    }

    method IcmpResp(req: Bytes, srcIp: Ip, now: nat)
      requires |req| >= Icmp.HDR_LEN
      modifies this
      ensures State() == IcmpRespT(Cfg(), old(State()), req, srcIp, now)
    {
      var tx := new byte[|req|];
      Icmp.FillEchoReply(tx, req);
      IpOut(tx[..], srcIp, PROTOCOL_ICMP, now);
    }

    method IcmpIn(buf: Bytes, srcIp: Ip, now: nat)
      modifies this
      ensures State() == IcmpInT(Cfg(), old(State()), buf, srcIp, now)
    {
      if |buf| < Icmp.HDR_LEN {
        return;
      }
      if buf[0] == Icmp.TYPE_ECHO_REQUEST {
        IcmpResp(buf, srcIp, now);
      }
    }

    method IcmpUnreachable(recv: Bytes, srcIp: Ip, code: byte, now: nat)
      modifies this
      ensures State() == IcmpUnreachableT(Cfg(), old(State()), recv, srcIp, code, now)
    {
      var tx := new byte[Icmp.HDR_LEN + Icmp.Min(|recv|, Icmp.QUOTE_LEN)];
      Icmp.FillUnreachable(tx, recv, code);
      IpOut(tx[..], srcIp, PROTOCOL_ICMP, now);
    }

    method IpIn(buf: array<byte>, now: nat)
      modifies this, buf
      decreases 1
      ensures buf[..] == Ipv4.AfterInput(old(buf[..]))
      ensures State() == IpInT(Cfg(), old(State()), old(buf[..]), now)
    {
      if buf.Length < Ipv4.HDR_LEN {
        return;
      }
      if buf[0] / 16 != Ipv4.VERSION_4 {
        return;
      }
      var ok := CheckHeaderChecksum(buf);
      if !ok {
        return;
      }
      var b := buf[..];
      if b[16..20] != localIp {
        return;
      }
      var len := |b|;
      var total := U16(b, 2);
      if total < len {
        len := total;
      }
      assert len == Ipv4.TrimmedLen(b);
      var protocol := b[9];
      if protocol != PROTOCOL_ICMP && protocol != PROTOCOL_UDP {
        assert Ipv4.Inspect(b, localIp) == Ipv4.Unreachable(b[12..16]);
        IcmpUnreachable(b[..len], b[12..16], Icmp.CODE_PROTOCOL_UNREACH, now);
        return;
      }
      if len < Ipv4.HDR_LEN {
        assert Ipv4.Inspect(b, localIp) == Ipv4.Runt;
        return;
      }
      assert Ipv4.Inspect(b, localIp) == Ipv4.Deliver(protocol, b[Ipv4.HDR_LEN..len], b[12..16]);
      NetIn(protocol, b[Ipv4.HDR_LEN..len], b[12..16], now);
    }

    method NetIn(protocol: nat, buf: Bytes, src: Bytes, now: nat)
      modifies this
      decreases if protocol == PROTOCOL_IP then 2 else 0
      ensures State() == NetInT(Cfg(), old(State()), protocol, buf, src, now)
    {
      delivered := delivered + [Delivery(protocol, buf, src)];
      if protocol == PROTOCOL_ARP {
        ArpIn(buf, now);
      } else if protocol == PROTOCOL_IP {
        var a := new byte[|buf|](i requires 0 <= i < |buf| => buf[i]);
        assert a[..] == buf;
        IpIn(a, now);
      } else if protocol == PROTOCOL_ICMP && |src| >= IP_LEN {
        IcmpIn(buf, src[..IP_LEN], now);
      }
    }

    method EthernetIn(frame: Bytes, now: nat)
      modifies this
      ensures State() == EthernetInT(Cfg(), old(State()), frame, now)
    {
      if |frame| < Ethernet.HDR_LEN {
        return;
      }
      var protocol := U16(frame, 12);
      var srcMac: Mac := frame[6..12];
      NetIn(protocol, frame[Ethernet.HDR_LEN..], srcMac, now);
    }
  }
}
