/** The IPv4 header of section 3.1 of RFC 791 as this stack writes and
    checks it: the 20-byte header built by ip_fragment_out, the chain of
    guards of ip_in, and the fragment plan of ip_out. */
module Ipv4 {
  import opened Net
  import opened Checksum
  import Ethernet

  const HDR_LEN: nat := 20
  const VERSION_4: nat := 4
  /** Header length in 4-byte words. */
  const IHL: nat := HDR_LEN / 4
  const DEFAULT_TTL: byte := 64
  /** The more-fragments bit of the flags/fragment-offset field. */
  const MORE_FRAGMENT: nat := 0x2000
  /** Fragment offsets count 8-byte units. */
  const OFFSET_UNIT: nat := 8
  /** Largest payload one frame carries: 1500 - 20. */
  const MAX_PAYLOAD: nat := Ethernet.MTU - HDR_LEN
  /** Position of the header checksum field. */
  const CHECKSUM_AT: nat := 10

  /** The flags/fragment-offset field as ip_fragment_out writes it: the MF
      bit plus the offset, both cut to 16 bits as the C conversions do. */
  function FlagsField(offset: nat, more: bool): (r: nat)
    ensures r < 0x10000
    ensures offset < MORE_FRAGMENT ==> r % MORE_FRAGMENT == offset && (r >= MORE_FRAGMENT <==> more)
  {
    ((if more then MORE_FRAGMENT else 0) + offset % 0x10000) % 0x10000
  }

  /** The header of ip_fragment_out with its checksum field still zero. */
  function RawHeader(payloadLen: nat, id: nat, offset: nat, more: bool, protocol: byte,
                     src: Ip, dst: Ip): (h: Bytes)
    ensures |h| == HDR_LEN && h[CHECKSUM_AT] == 0 && h[CHECKSUM_AT + 1] == 0
  {
    [(VERSION_4 * 16 + IHL) as byte, 0]
    + Be16((payloadLen + HDR_LEN) % 0x10000) + Be16(id % 0x10000) + Be16(FlagsField(offset, more))
    + [DEFAULT_TTL, protocol] + [0, 0] + src + dst
  }

  /** The header of ip_fragment_out: the raw header with its checksum filled in. */
  function Header(payloadLen: nat, id: nat, offset: nat, more: bool, protocol: byte,
                  src: Ip, dst: Ip): (h: Bytes)
    ensures |h| == HDR_LEN
    ensures var raw := RawHeader(payloadLen, id, offset, more, protocol, src, dst);
      && U16(h, CHECKSUM_AT) == Checksum16(raw)
      && forall i :: 0 <= i < HDR_LEN && i != CHECKSUM_AT && i != CHECKSUM_AT + 1 ==> h[i] == raw[i]
  {
    var raw := RawHeader(payloadLen, id, offset, more, protocol, src, dst);
    Set16(raw, CHECKSUM_AT, Checksum16(raw))
  }

  /** A fragment's header followed by its data. */
  function Datagram(data: Bytes, src: Ip, dst: Ip, protocol: byte, id: nat, offset: nat,
                    more: bool): (d: Bytes)
    ensures |d| == HDR_LEN + |data| && d[HDR_LEN..] == data
  {
    Header(|data|, id, offset, more, protocol, src, dst) + data
  }

  /** The stores of ip_fragment_out before the addresses: version and
      header length, TOS, total length, identifier, flags/offset, TTL,
      protocol, and a zero checksum. */
  method WriteFixedFields(buf: array<byte>, id: nat, offset: nat, more: bool, protocol: byte)
    requires buf.Length >= HDR_LEN
    modifies buf
    ensures buf[..12] == [(VERSION_4 * 16 + IHL) as byte, 0] + Be16(buf.Length % 0x10000) + Be16(id % 0x10000)
                         + Be16(FlagsField(offset, more)) + [DEFAULT_TTL, protocol] + [0, 0]
    ensures buf[12..] == old(buf[12..])
  {
    var total, ident, flags := buf.Length % 0x10000, id % 0x10000, FlagsField(offset, more);
    buf[0], buf[1] := (VERSION_4 * 16 + IHL) as byte, 0;
    buf[2], buf[3] := total / 256, total % 256;
    buf[4], buf[5] := ident / 256, ident % 256;
    buf[6], buf[7] := flags / 256, flags % 256;
    buf[8], buf[9] := DEFAULT_TTL, protocol;
    buf[10], buf[11] := 0, 0;
  }

  /** The field stores of ip_fragment_out, checksum field zero. */
  method WriteFields(buf: array<byte>, id: nat, offset: nat, more: bool, protocol: byte, src: Ip, dst: Ip)
    requires buf.Length >= HDR_LEN
    modifies buf
    ensures buf[..] == RawHeader(buf.Length - HDR_LEN, id, offset, more, protocol, src, dst) + old(buf[HDR_LEN..])
  {
    ghost var data := buf[HDR_LEN..];
    WriteFixedFields(buf, id, offset, more, protocol);
    ghost var fixed := buf[..12];
    CopyIn(buf, 12, src);
    CopyIn(buf, 16, dst);
    assert buf[..12] == fixed;
    assert buf[..] == fixed + src + dst + data;
  }

  /** ip_fragment_out's in-place fill of the 20 header bytes in front of
      the data (the space buf_add_header made): the fields, then the
      checksum of those 20 bytes in the zeroed checksum field. */
  method WriteHeader(buf: array<byte>, id: nat, offset: nat, more: bool, protocol: byte, src: Ip, dst: Ip)
    requires buf.Length >= HDR_LEN
    modifies buf
    ensures buf[..] == Header(buf.Length - HDR_LEN, id, offset, more, protocol, src, dst) + old(buf[HDR_LEN..])
  {
    ghost var data := buf[HDR_LEN..];
    WriteFields(buf, id, offset, more, protocol, src, dst);
    ghost var raw := RawHeader(buf.Length - HDR_LEN, id, offset, more, protocol, src, dst);
    assert buf[..HDR_LEN] == raw;
    var sum := Checksum16(buf[..HDR_LEN]);
    Store16(buf, CHECKSUM_AT, sum);
    assert buf[..] == Set16(raw, CHECKSUM_AT, sum) + data;
  }

  // ---- Header fields as ip_in reads them ----

  function Version(b: Bytes): nat requires |b| >= 1 { b[0] / 16 }
  function TotalLen(b: Bytes): nat requires |b| >= HDR_LEN { U16(b, 2) }
  function Id(b: Bytes): nat requires |b| >= HDR_LEN { U16(b, 4) }
  function Flags(b: Bytes): nat requires |b| >= HDR_LEN { U16(b, 6) }
  function Protocol(b: Bytes): byte requires |b| >= HDR_LEN { b[9] }
  function Src(b: Bytes): Ip requires |b| >= HDR_LEN { b[12..16] }
  function DstOf(b: Bytes): Ip requires |b| >= HDR_LEN { b[16..20] }

  /** ip_in's checksum test: the checksum of the 20 header bytes with the
      field zeroed equals the stored field. */
  predicate ChecksumOk(b: Bytes)
    requires |b| >= HDR_LEN
  {
    U16(b, CHECKSUM_AT) == Checksum16(Set16(b[..HDR_LEN], CHECKSUM_AT, 0))
  }

  /** Corrupting any one byte of a header that passes ip_in's checksum test
      makes it fail the test: either the stored field changed, or the
      checksum of the zeroed header did. */
  lemma HeaderByteChangeDetected(b: Bytes, b2: Bytes, j: nat)
    requires |b| >= HDR_LEN && |b2| == |b| && j < HDR_LEN && b2[j] != b[j]
    requires forall i :: 0 <= i < |b| && i != j ==> b2[i] == b[i]
    requires ChecksumOk(b)
    ensures !ChecksumOk(b2)
  {
    var h, h2 := Set16(b[..HDR_LEN], CHECKSUM_AT, 0), Set16(b2[..HDR_LEN], CHECKSUM_AT, 0);
    if j == CHECKSUM_AT || j == CHECKSUM_AT + 1 {
      assert h2 == h;
    } else {
      assert h2[j] != h[j];
      ChecksumDetectsByteChange(h, h2, j);
    }
  }

  /** The length ip_in keeps after removing padding: the declared total
      length when it is below the buffer's length. */
  function TrimmedLen(b: Bytes): (n: nat)
    requires |b| >= HDR_LEN
    ensures n <= |b|
    ensures TotalLen(b) < |b| ==> n == TotalLen(b)
    ensures TotalLen(b) >= |b| ==> n == |b|
  {
    if TotalLen(b) < |b| then TotalLen(b) else |b|
  }

  /** What ip_in decides for a received datagram. */
  datatype Verdict =
    | TooShort
    | BadVersion
    | BadChecksum
    | NotForUs
    | Unreachable(src: Ip)
    | Runt
    | Deliver(protocol: byte, payload: Bytes, src: Ip)

  /** ip_in's chain of guards, in the source's order. A datagram whose
      declared total length exceeds the buffer is not dropped; one whose
      trimmed length is below the header length is dropped, where src/ip.c:54-66
      would strip 20 bytes from a shorter buffer. */
  function Inspect(b: Bytes, local: Ip): (v: Verdict)
    ensures v.TooShort? <==> |b| < HDR_LEN
    ensures v.Deliver? ==> |b| >= HDR_LEN && v.protocol == Protocol(b) && v.src == Src(b)
                           && (v.protocol == PROTOCOL_ICMP || v.protocol == PROTOCOL_UDP)
                           && HDR_LEN <= TrimmedLen(b) && v.payload == b[HDR_LEN..TrimmedLen(b)]
    ensures v.Deliver? || v.Unreachable? ==>
              Version(b) == VERSION_4 && ChecksumOk(b) && DstOf(b) == local
    ensures v.Unreachable? ==> v.src == Src(b) && Protocol(b) != PROTOCOL_ICMP && Protocol(b) != PROTOCOL_UDP
    ensures v.BadVersion? <==> |b| >= HDR_LEN && Version(b) != VERSION_4
    ensures v.BadChecksum? <==> |b| >= HDR_LEN && Version(b) == VERSION_4 && !ChecksumOk(b)
    ensures v.NotForUs? <==> |b| >= HDR_LEN && Version(b) == VERSION_4 && ChecksumOk(b) && DstOf(b) != local
    ensures |b| >= HDR_LEN && Version(b) == VERSION_4 && ChecksumOk(b) && DstOf(b) == local ==>
              if Protocol(b) != PROTOCOL_ICMP && Protocol(b) != PROTOCOL_UDP then v == Unreachable(Src(b))
              else (v.Deliver? <==> TrimmedLen(b) >= HDR_LEN) && (v.Runt? <==> TrimmedLen(b) < HDR_LEN)
  {
    if |b| < HDR_LEN then TooShort
    else if Version(b) != VERSION_4 then BadVersion
    else if !ChecksumOk(b) then BadChecksum
    else if DstOf(b) != local then NotForUs
    else if Protocol(b) != PROTOCOL_ICMP && Protocol(b) != PROTOCOL_UDP then Unreachable(Src(b))
    else if TrimmedLen(b) < HDR_LEN then Runt
    else Deliver(Protocol(b), b[HDR_LEN..TrimmedLen(b)], Src(b))
  }

  /** The received buffer after ip_in: on a checksum mismatch the checksum
      field is left zeroed; every other path leaves the bytes as received. */
  function AfterInput(b: Bytes): (r: Bytes)
    ensures |r| == |b|
    ensures Inspect(b, [0, 0, 0, 0]).BadChecksum? ==> r == Set16(b, CHECKSUM_AT, 0)
    ensures !Inspect(b, [0, 0, 0, 0]).BadChecksum? ==> r == b
  {
    if |b| >= HDR_LEN && Version(b) == VERSION_4 && !ChecksumOk(b) then Set16(b, CHECKSUM_AT, 0)
    else b
  }

  /** ip_fragment_out's header passes ip_in's checksum test. */
  lemma HeaderChecksumOk(payloadLen: nat, id: nat, offset: nat, more: bool, protocol: byte,
                         src: Ip, dst: Ip)
    ensures ChecksumOk(Header(payloadLen, id, offset, more, protocol, src, dst))
  {
    var raw := RawHeader(payloadLen, id, offset, more, protocol, src, dst);
    var h := Header(payloadLen, id, offset, more, protocol, src, dst);
    assert h[..HDR_LEN] == h;
    Set16Twice(raw, CHECKSUM_AT, Checksum16(raw), 0);
    Set16Same(raw, CHECKSUM_AT);
  }

  /** ... and verifies under the RFC 1071 receiver rule. */
  lemma HeaderVerifies(payloadLen: nat, id: nat, offset: nat, more: bool, protocol: byte,
                       src: Ip, dst: Ip)
    ensures Verifies(Header(payloadLen, id, offset, more, protocol, src, dst))
  {
    ChecksumVerifies(RawHeader(payloadLen, id, offset, more, protocol, src, dst), CHECKSUM_AT);
  }

  /** The fields of ip_fragment_out's header, read back as ip_in reads them. */
  lemma HeaderFields(data: Bytes, src: Ip, dst: Ip, protocol: byte, id: nat, offset: nat, more: bool)
    ensures var d := Datagram(data, src, dst, protocol, id, offset, more);
      && Version(d) == VERSION_4 && d[0] % 16 == IHL && d[1] == 0
      && TotalLen(d) == (|data| + HDR_LEN) % 0x10000
      && Id(d) == id % 0x10000
      && Flags(d) == FlagsField(offset, more)
      && d[8] == DEFAULT_TTL && Protocol(d) == protocol
      && Src(d) == src && DstOf(d) == dst
      && ChecksumOk(d)
  {
    var raw := RawHeader(|data|, id, offset, more, protocol, src, dst);
    var h := Header(|data|, id, offset, more, protocol, src, dst);
    var d := Datagram(data, src, dst, protocol, id, offset, more);
    assert d[..HDR_LEN] == h;
    assert raw[12..16] == src && raw[16..20] == dst;
    assert h[12..16] == raw[12..16] && h[16..20] == raw[16..20];
    assert U16(d, 2) == U16(h, 2) == U16(raw, 2);
    assert U16(d, 4) == U16(h, 4) == U16(raw, 4);
    assert U16(d, 6) == U16(h, 6) == U16(raw, 6);
    HeaderChecksumOk(|data|, id, offset, more, protocol, src, dst);
    assert U16(d, CHECKSUM_AT) == U16(h, CHECKSUM_AT);
    assert h[..HDR_LEN] == h && d[..HDR_LEN][..HDR_LEN] == h;
    assert ChecksumOk(h);
  }

  /** Round trip ip_fragment_out -> ip_in: a datagram we build for the local
      address with protocol ICMP or UDP is delivered with exactly its data,
      its protocol and our address as source. */
  lemma InspectDatagram(data: Bytes, src: Ip, local: Ip, protocol: byte, id: nat, offset: nat,
                        more: bool)
    requires protocol == PROTOCOL_ICMP || protocol == PROTOCOL_UDP
    requires |data| + HDR_LEN < 0x10000
    ensures Inspect(Datagram(data, src, local, protocol, id, offset, more), local)
            == Deliver(protocol, data, src)
  {
    HeaderFields(data, src, local, protocol, id, offset, more);
  }

  /** The same round trip when the datagram arrives with trailing zero
      bytes (Ethernet padding): ip_in trims them by the total length. */
  lemma InspectPaddedDatagram(data: Bytes, src: Ip, local: Ip, protocol: byte, id: nat, offset: nat,
                              more: bool, k: nat)
    requires protocol == PROTOCOL_ICMP || protocol == PROTOCOL_UDP
    requires |data| + HDR_LEN < 0x10000
    ensures Inspect(Datagram(data, src, local, protocol, id, offset, more) + Zeros(k), local)
            == Deliver(protocol, data, src)
  {
    var d := Datagram(data, src, local, protocol, id, offset, more);
    var b := d + Zeros(k);
    HeaderFields(data, src, local, protocol, id, offset, more);
    assert b[..HDR_LEN] == d[..HDR_LEN];
    SameHeader(d, b);
    assert TrimmedLen(b) == |d|;
    assert b[HDR_LEN..|d|] == data;
  }

  /** Everything ip_in's guards read lies in the first 20 bytes. */
  lemma SameHeader(b: Bytes, b2: Bytes)
    requires |b| >= HDR_LEN && |b2| >= HDR_LEN && b[..HDR_LEN] == b2[..HDR_LEN]
    ensures Version(b2) == Version(b) && ChecksumOk(b2) == ChecksumOk(b)
    ensures DstOf(b2) == DstOf(b) && Protocol(b2) == Protocol(b) && Src(b2) == Src(b)
    ensures TotalLen(b2) == TotalLen(b)
  {
    assert forall i :: 0 <= i < HDR_LEN ==> b[i] == b[..HDR_LEN][i] == b2[..HDR_LEN][i] == b2[i];
    assert b[12..16] == b2[12..16] && b[16..20] == b2[16..20];
  }

  // ---- Fragmentation plan of ip_out ----

  datatype Fragment = Fragment(data: Bytes, offset: nat, more: bool)

  /** Number of fragments ip_out sends: len/1480 + 1 when fragmenting, so one
      more than the ceiling when len is a multiple of 1480. */
  function FragmentCount(len: nat): nat
  {
    if len > MAX_PAYLOAD then len / MAX_PAYLOAD + 1 else 1
  }

  lemma ChunkBounds(len: nat, i: nat)
    requires i <= len / MAX_PAYLOAD
    ensures i * MAX_PAYLOAD <= len
    ensures i < len / MAX_PAYLOAD ==> (i + 1) * MAX_PAYLOAD <= len
  {
  }

  /** Fragment `i` of a payload longer than 1480 bytes: a full 1480-byte
      chunk with MF set, except the last, which carries the rest. */
  function FragmentAt(p: Bytes, i: nat): (f: Fragment)
    requires |p| > MAX_PAYLOAD && i <= |p| / MAX_PAYLOAD
  {
    ChunkBounds(|p|, i);
    if i < |p| / MAX_PAYLOAD then
      Fragment(p[i * MAX_PAYLOAD..(i + 1) * MAX_PAYLOAD], i * MAX_PAYLOAD / OFFSET_UNIT, true)
    else
      Fragment(p[i * MAX_PAYLOAD..], i * MAX_PAYLOAD / OFFSET_UNIT, false)
  }

  /** The fragments ip_out sends for a payload, in order. */
  function Fragments(p: Bytes): (fs: seq<Fragment>)
    ensures |fs| == FragmentCount(|p|)
  {
    if |p| <= MAX_PAYLOAD then [Fragment(p, 0, false)]
    else seq(|p| / MAX_PAYLOAD + 1, i requires 0 <= i <= |p| / MAX_PAYLOAD => FragmentAt(p, i))
  }

  /** Fragment `i` before the last of a long payload: a full chunk with MF set. */
  lemma FullFragment(p: Bytes, i: nat)
    requires |p| > MAX_PAYLOAD && i < |p| / MAX_PAYLOAD
    ensures i * MAX_PAYLOAD + MAX_PAYLOAD <= |p|
    ensures Fragments(p)[i]
            == Fragment(p[i * MAX_PAYLOAD..i * MAX_PAYLOAD + MAX_PAYLOAD], i * MAX_PAYLOAD / OFFSET_UNIT, true)
  {
    ChunkBounds(|p|, i);
    assert Fragments(p)[i] == FragmentAt(p, i);
  }

  /** The last fragment of a long payload: the remainder with MF clear. */
  lemma LastFragment(p: Bytes)
    requires |p| > MAX_PAYLOAD
    ensures (|p| / MAX_PAYLOAD) * MAX_PAYLOAD <= |p|
    ensures Fragments(p)[|p| / MAX_PAYLOAD]
            == Fragment(p[(|p| / MAX_PAYLOAD) * MAX_PAYLOAD..], (|p| / MAX_PAYLOAD) * MAX_PAYLOAD / OFFSET_UNIT, false)
  {
    ChunkBounds(|p|, |p| / MAX_PAYLOAD);
    assert Fragments(p)[|p| / MAX_PAYLOAD] == FragmentAt(p, |p| / MAX_PAYLOAD);
  }

  /** The data of the fragments, concatenated in order. */
  function Joined(fs: seq<Fragment>): Bytes
  {
    if fs == [] then [] else Joined(fs[..|fs| - 1]) + fs[|fs| - 1].data
  }

  /** Shape of the plan: every fragment but the last carries 1480 bytes and MF;
      the last carries MF clear; fragment i starts at byte i*1480, which is
      8 times its offset field. */
  lemma FragmentsShape(p: Bytes)
    ensures var fs := Fragments(p);
      && (|p| <= MAX_PAYLOAD ==> fs == [Fragment(p, 0, false)])
      && (forall i :: 0 <= i < |fs| - 1 ==>
            fs[i].more && |fs[i].data| == MAX_PAYLOAD
            && fs[i].data == p[i * MAX_PAYLOAD..(i + 1) * MAX_PAYLOAD])
      && (forall i :: 0 <= i < |fs| ==> fs[i].offset * OFFSET_UNIT == i * MAX_PAYLOAD)
      && !fs[|fs| - 1].more
      && fs[|fs| - 1].data == p[(|fs| - 1) * MAX_PAYLOAD..]
  {
    var fs := Fragments(p);
    if |p| > MAX_PAYLOAD {
      forall i | 0 <= i < |fs| - 1
        ensures fs[i].more && |fs[i].data| == MAX_PAYLOAD
        ensures fs[i].data == p[i * MAX_PAYLOAD..(i + 1) * MAX_PAYLOAD]
      {
        FullFragment(p, i);
      }
      forall i | 0 <= i < |fs|
        ensures fs[i].offset * OFFSET_UNIT == i * MAX_PAYLOAD
      {
        ChunkBounds(|p|, i);
        OffsetUnits(i);
        assert fs[i] == FragmentAt(p, i);
      }
      LastFragment(p);
    }
  }

  /** The fragments' data, concatenated, is the payload. */
  lemma {:induction false} FragmentsJoin(p: Bytes)
    ensures Joined(Fragments(p)) == p
  {
    var fs := Fragments(p);
    var n := |fs|;
    JoinedPrefix(p, n - 1);
    assert fs[..n][..n - 1] == fs[..n - 1] && fs[..n] == fs;
    assert Joined(fs) == Joined(fs[..n - 1]) + fs[n - 1].data;
    if |p| > MAX_PAYLOAD {
      assert fs[n - 1] == FragmentAt(p, n - 1);
    }
    assert fs[n - 1].data == p[(n - 1) * MAX_PAYLOAD..];
    assert p[..(n - 1) * MAX_PAYLOAD] + p[(n - 1) * MAX_PAYLOAD..] == p;
  }

  /** Each fragment's offset field is the number of payload bytes sent
      before it, in 8-byte units. */
  lemma FragmentOffsets(p: Bytes, i: nat)
    requires i < |Fragments(p)|
    ensures Fragments(p)[i].offset * OFFSET_UNIT == |Joined(Fragments(p)[..i])|
  {
    var fs := Fragments(p);
    JoinedPrefix(p, i);
    OffsetUnits(i);
    if |p| > MAX_PAYLOAD {
      assert fs[i] == FragmentAt(p, i);
      assert fs[i].offset == i * MAX_PAYLOAD / OFFSET_UNIT;
    }
  }

  /** 1480 is a whole number of 8-byte units, so a chunk's start converts
      to an offset field exactly. */
  lemma OffsetUnits(i: nat)
    ensures i * MAX_PAYLOAD / OFFSET_UNIT * OFFSET_UNIT == i * MAX_PAYLOAD
  {
    assert i * MAX_PAYLOAD == OFFSET_UNIT * (i * (MAX_PAYLOAD / OFFSET_UNIT));
  }

  /** The first k fragments carry exactly the first k*1480 payload bytes. */
  lemma {:induction false} JoinedPrefix(p: Bytes, k: nat)
    requires k < |Fragments(p)|
    ensures k * MAX_PAYLOAD <= |p|
    ensures Joined(Fragments(p)[..k]) == p[..k * MAX_PAYLOAD]
  {
    var fs := Fragments(p);
    if k == 0 {
      assert fs[..0] == [];
    } else {
      assert |p| > MAX_PAYLOAD;
      ChunkBounds(|p|, k - 1);
      JoinedPrefix(p, k - 1);
      var lo, hi := (k - 1) * MAX_PAYLOAD, k * MAX_PAYLOAD;
      assert hi == lo + MAX_PAYLOAD;
      assert fs[k - 1] == FragmentAt(p, k - 1);
      assert fs[k - 1].data == p[lo..hi];
      assert fs[..k][..k - 1] == fs[..k - 1];
      assert Joined(fs[..k]) == Joined(fs[..k - 1]) + p[lo..hi];
      assert p[..lo] + p[lo..hi] == p[..hi];
    }
  }

  /** As written, a payload that is an exact multiple (at least two) of 1480
      bytes gets one more fragment than needed, and that last fragment is empty. */
  lemma ExactMultipleTrailingFragment(p: Bytes, k: nat)
    requires k >= 2 && |p| == k * MAX_PAYLOAD
    ensures |Fragments(p)| == k + 1
    ensures Fragments(p)[k] == Fragment([], k * MAX_PAYLOAD / OFFSET_UNIT, false)
  {
    assert |p| / MAX_PAYLOAD == k;
  }
}
