/** ICMP messages of RFC 792 that this stack emits: the Echo Reply built by
    icmp_resp and the Destination Unreachable built by icmp_unreachable. Both
    carry the RFC 1071 checksum over the whole message. */
module Icmp {
  import opened Net
  import opened Checksum
  import Ipv4

  const HDR_LEN: nat := 8
  const TYPE_ECHO_REPLY: byte := 0
  const TYPE_UNREACH: byte := 3
  const TYPE_ECHO_REQUEST: byte := 8
  const CODE_PROTOCOL_UNREACH: byte := 2
  /** Position of the checksum field. */
  const CHECKSUM_AT: nat := 2
  /** What an unreachable message quotes: the IP header plus 8 data bytes. */
  const QUOTE_LEN: nat := Ipv4.HDR_LEN + 8

  /** True when the message's checksum field equals the checksum of the
      message with that field zeroed (how icmp_resp and icmp_unreachable
      fill it in). */
  predicate ChecksumOk(m: Bytes)
    requires |m| >= HDR_LEN
  {
    U16(m, CHECKSUM_AT) == Checksum16(Set16(m, CHECKSUM_AT, 0))
  }

  /** Fills the zeroed checksum field of a message. */
  function WithChecksum(body: Bytes): (m: Bytes)
    requires |body| >= HDR_LEN && body[CHECKSUM_AT] == 0 && body[CHECKSUM_AT + 1] == 0
    ensures |m| == |body| && ChecksumOk(m) && Verifies(m)
    ensures m[..CHECKSUM_AT] == body[..CHECKSUM_AT] && m[CHECKSUM_AT + 2..] == body[CHECKSUM_AT + 2..]
  {
    var m := Set16(body, CHECKSUM_AT, Checksum16(body));
    Set16Twice(body, CHECKSUM_AT, Checksum16(body), 0);
    Set16Same(body, CHECKSUM_AT);
    ChecksumVerifies(body, CHECKSUM_AT);
    m
  }

  /** icmp_resp's reply to an echo request: type 0, code 0, the request's
      identifier, sequence number and data, then the checksum. */
  function EchoReply(req: Bytes): (r: Bytes)
    requires |req| >= HDR_LEN
    ensures |r| == |req|
    ensures r[0] == TYPE_ECHO_REPLY && r[1] == 0
    ensures r[4..8] == req[4..8]
    ensures r[HDR_LEN..] == req[HDR_LEN..]
    ensures ChecksumOk(r) && Verifies(r)
  {
    WithChecksum([TYPE_ECHO_REPLY, 0, 0, 0] + req[4..])
  }

  function Min(a: nat, b: nat): nat { if a < b then a else b }

  /** icmp_unreachable's message: type 3, the given code, zero identifier and
      sequence number, then the first 28 bytes of the offending datagram (its
      header and 8 data bytes), then the checksum. A datagram shorter than 28
      bytes is quoted whole, where src/icmp.c:76 would copy 28 bytes
      regardless. */
  function Unreachable(recv: Bytes, code: byte): (m: Bytes)
    ensures |m| == HDR_LEN + Min(|recv|, QUOTE_LEN)
    ensures |recv| >= QUOTE_LEN ==> |m| == 36
    ensures m[0] == TYPE_UNREACH && m[1] == code && m[4..8] == [0, 0, 0, 0]
    ensures m[HDR_LEN..] == recv[..Min(|recv|, QUOTE_LEN)]
    ensures ChecksumOk(m) && Verifies(m)
  {
    WithChecksum([TYPE_UNREACH, code, 0, 0, 0, 0, 0, 0] + recv[..Min(|recv|, QUOTE_LEN)])
  }

  /** icmp_resp's in-place fill of the transmit buffer: type and code, the
      request's identifier and sequence number, its data, a zero checksum
      field, then the checksum of the whole message. */
  method FillEchoReply(tx: array<byte>, req: Bytes)
    requires tx.Length == |req| >= HDR_LEN
    modifies tx
    ensures tx[..] == EchoReply(req)
  {
    tx[0], tx[1] := TYPE_ECHO_REPLY, 0;
    CopyIn(tx, 4, req[4..HDR_LEN]);
    ghost var head := tx[..HDR_LEN];
    CopyIn(tx, HDR_LEN, req[HDR_LEN..]);
    assert tx[..] == head + req[HDR_LEN..];
    Store16(tx, CHECKSUM_AT, 0);
    assert tx[..HDR_LEN] == [TYPE_ECHO_REPLY, 0, 0, 0] + req[4..HDR_LEN];
    assert tx[..] == [TYPE_ECHO_REPLY, 0, 0, 0] + req[4..];
    var sum := Checksum16(tx[..]);
    Store16(tx, CHECKSUM_AT, sum);
  }

  /** icmp_unreachable's in-place fill of the transmit buffer: type, code,
      zero identifier, sequence number and checksum field, the quoted
      datagram, then the checksum of the whole message. The quote is cut to
      the bytes the datagram has, where src/icmp.c:76 copies 28 regardless. */
  method FillUnreachable(tx: array<byte>, recv: Bytes, code: byte)
    requires tx.Length == HDR_LEN + Min(|recv|, QUOTE_LEN)
    modifies tx
    ensures tx[..] == Unreachable(recv, code)
  {
    tx[0], tx[1] := TYPE_UNREACH, code;
    tx[4], tx[5], tx[6], tx[7] := 0, 0, 0, 0;
    tx[2], tx[3] := 0, 0;
    ghost var head := tx[..HDR_LEN];
    assert head == [TYPE_UNREACH, code, 0, 0, 0, 0, 0, 0];
    CopyIn(tx, HDR_LEN, recv[..Min(|recv|, QUOTE_LEN)]);
    assert tx[..] == head + recv[..Min(|recv|, QUOTE_LEN)];
    var sum := Checksum16(tx[..]);
    Store16(tx, CHECKSUM_AT, sum);
  }
}
