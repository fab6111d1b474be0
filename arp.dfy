/** The 28-byte ARP packet for Ethernet/IPv4 (RFC 826): its layout, the
    fixed-field check arp_in applies, and the request and reply that
    arp_req and arp_resp build. */
module Arp {
  import opened Net

  const PKT_LEN: nat := 28
  const HW_ETHER: nat := 1
  const REQUEST: nat := 1
  const REPLY: nat := 2

  /** The variable part of an ARP packet; the five fixed fields are implied. */
  datatype Packet = Packet(opcode: nat, senderMac: Mac, senderIp: Ip, targetMac: Mac, targetIp: Ip)

  /** Byte layout: hw type, protocol type, hw length, protocol length,
      opcode, sender MAC/IP, target MAC/IP. */
  function Encode(p: Packet): (b: Bytes)
    requires p.opcode < 0x10000
    ensures |b| == PKT_LEN
  {
    Be16(HW_ETHER) + Be16(PROTOCOL_IP) + [MAC_LEN as byte, IP_LEN as byte] + Be16(p.opcode)
    + p.senderMac + p.senderIp + p.targetMac + p.targetIp
  }

  /** arp_in's five checks: Ethernet hardware, IP protocol, address lengths
      6 and 4, opcode request or reply. */
  predicate FixedFieldsOk(b: Bytes)
    requires |b| >= PKT_LEN
  {
    && U16(b, 0) == HW_ETHER
    && U16(b, 2) == PROTOCOL_IP
    && b[4] == MAC_LEN
    && b[5] == IP_LEN
    && (U16(b, 6) == REQUEST || U16(b, 6) == REPLY)
  }

  /** How arp_in reads a received buffer: nothing when it is shorter than
      an ARP packet or any fixed field is off; otherwise its address fields. */
  function Decode(b: Bytes): (r: Option<Packet>)
    ensures r.Some? <==> |b| >= PKT_LEN && FixedFieldsOk(b)
    ensures r.Some? ==> r.value.opcode == U16(b, 6) && r.value.senderMac == b[8..14]
                        && r.value.senderIp == b[14..18] && r.value.targetMac == b[18..24]
                        && r.value.targetIp == b[24..28]
  {
    if |b| < PKT_LEN || !FixedFieldsOk(b) then None
    else Some(Packet(U16(b, 6), b[8..14], b[14..18], b[18..24], b[24..28]))
  }

  /** arp_req and arp_resp's field-by-field fill of the transmit buffer. */
  method WritePacket(buf: array<byte>, p: Packet)
    requires buf.Length == PKT_LEN && p.opcode < 0x10000
    modifies buf
    ensures buf[..] == Encode(p)
  {
    Store16(buf, 0, HW_ETHER);
    Store16(buf, 2, PROTOCOL_IP);
    buf[4] := MAC_LEN as byte;
    buf[5] := IP_LEN as byte;
    Store16(buf, 6, p.opcode);
    ghost var fixed := buf[..8];
    assert fixed == Be16(HW_ETHER) + Be16(PROTOCOL_IP) + [MAC_LEN as byte, IP_LEN as byte] + Be16(p.opcode);
    CopyIn(buf, 8, p.senderMac);
    CopyIn(buf, 14, p.senderIp);
    CopyIn(buf, 18, p.targetMac);
    CopyIn(buf, 24, p.targetIp);
    assert buf[..8] == fixed;
    assert buf[..] == fixed + p.senderMac + p.senderIp + p.targetMac + p.targetIp;
  }

  /** Every packet with opcode request or reply survives arp_in's checks and
      reads back field for field. */
  lemma DecodeEncode(p: Packet)
    requires p.opcode == REQUEST || p.opcode == REPLY
    ensures Decode(Encode(p)) == Some(p)
  {
    var b := Encode(p);
    assert b[8..14] == p.senderMac && b[14..18] == p.senderIp;
    assert b[18..24] == p.targetMac && b[24..28] == p.targetIp;
  }

  /** Conversely, an accepted buffer is exactly the encoding of what was read
      from its first 28 bytes. */
  lemma EncodeDecode(b: Bytes)
    requires Decode(b).Some?
    ensures Encode(Decode(b).value) == b[..PKT_LEN]
  {
    var e := Encode(Decode(b).value);
    assert forall j :: 0 <= j < PKT_LEN ==> e[j] == b[j];
  }

  /** arp_in reads only the first 28 bytes: trailing bytes, such as
      Ethernet padding, change nothing. */
  lemma DecodeExtended(b: Bytes, rest: Bytes)
    requires |b| >= PKT_LEN
    ensures Decode(b + rest) == Decode(b)
  {
    var e := b + rest;
    assert e[..PKT_LEN] == b[..PKT_LEN];
    assert e[8..14] == b[8..14] && e[14..18] == b[14..18];
    assert e[18..24] == b[18..24] && e[24..28] == b[24..28];
  }

  /** arp_req's packet: sender = our pair, target MAC all zero. */
  function Request(localMac: Mac, localIp: Ip, targetIp: Ip): (p: Packet)
    ensures p.opcode == REQUEST && p.targetMac == ZERO_MAC && p.targetIp == targetIp
    ensures p.senderMac == localMac && p.senderIp == localIp
  {
    Packet(REQUEST, localMac, localIp, ZERO_MAC, targetIp)
  }

  /** arp_resp's packet: sender = our pair, target = the given pair. */
  function Reply(localMac: Mac, localIp: Ip, targetIp: Ip, targetMac: Mac): (p: Packet)
    ensures p.opcode == REPLY && p.targetMac == targetMac && p.targetIp == targetIp
    ensures p.senderMac == localMac && p.senderIp == localIp
  {
    Packet(REPLY, localMac, localIp, targetMac, targetIp)
  }
}
