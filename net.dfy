/** Shared vocabulary of the stack: bytes, addresses, big-endian 16-bit fields
    and the protocol numbers that the frame and datagram dispatch use. */
module Net {

  /** One octet of a packet buffer. */
  type byte = x: int | 0 <= x < 256

  type Bytes = seq<byte>

  /** A link (MAC) address: 6 bytes. */
  type Mac = s: Bytes | |s| == 6 witness [0, 0, 0, 0, 0, 0]

  /** A network (IPv4) address: 4 bytes. */
  type Ip = s: Bytes | |s| == 4 witness [0, 0, 0, 0]

  datatype Option<+T> = None | Some(value: T)

  /** Protocol numbers shared by the Ethernet type field and the IP protocol field. */
  const PROTOCOL_IP: nat := 0x0800
  const PROTOCOL_ARP: nat := 0x0806
  const PROTOCOL_ICMP: byte := 1
  const PROTOCOL_UDP: byte := 17

  const MAC_LEN: nat := 6
  const IP_LEN: nat := 4

  const BROADCAST_MAC: Mac := [0xFF, 0xFF, 0xFF, 0xFF, 0xFF, 0xFF]
  const ZERO_MAC: Mac := [0, 0, 0, 0, 0, 0]

  /** `n` zero bytes. */
  function Zeros(n: nat): (r: Bytes)
    ensures |r| == n
    ensures forall j :: 0 <= j < n ==> r[j] == 0
  {
    seq(n, _ => 0)
  }

  /** The 16-bit big-endian (network order) field stored at `s[i..i+2]`. */
  function U16(s: Bytes, i: nat): (r: nat)
    requires i + 2 <= |s|
    ensures r < 0x10000
  {
    (s[i] as int) * 256 + s[i + 1]
  }

  /** The two bytes that store `v` in network order. */
  function Be16(v: nat): (r: Bytes)
    requires v < 0x10000
    ensures |r| == 2 && U16(r, 0) == v
  {
    [v / 256, v % 256]
  }

  /** `s` with the 16-bit field at `i` overwritten by `v`; nothing else changes. */
  function Set16(s: Bytes, i: nat, v: nat): (r: Bytes)
    requires i + 2 <= |s| && v < 0x10000
    ensures |r| == |s| && U16(r, i) == v
    ensures forall j :: 0 <= j < |s| && j != i && j != i + 1 ==> r[j] == s[j]
  {
    s[..i] + Be16(v) + s[i + 2..]
  }

  /** Writing back the value a field already holds leaves the buffer as it was. */
  lemma Set16Same(s: Bytes, i: nat)
    requires i + 2 <= |s|
    ensures Set16(s, i, U16(s, i)) == s
  {
    var r := Set16(s, i, U16(s, i));
    assert r[i] == s[i] && r[i + 1] == s[i + 1];
    assert forall j :: 0 <= j < |s| ==> r[j] == s[j];
  }

  /** The second of two writes to the same field wins. */
  lemma Set16Twice(s: Bytes, i: nat, v: nat, w: nat)
    requires i + 2 <= |s| && v < 0x10000 && w < 0x10000
    ensures Set16(Set16(s, i, v), i, w) == Set16(s, i, w)
  {
    var a := Set16(Set16(s, i, v), i, w);
    var b := Set16(s, i, w);
    assert a[i] == w / 256 == b[i];
    assert forall j :: 0 <= j < |s| ==> a[j] == b[j];
  }

  /** A 16-bit store in network order into a buffer (a `swap16`ed field write). */
  method Store16(buf: array<byte>, i: nat, v: nat)
    requires i + 2 <= buf.Length && v < 0x10000
    modifies buf
    ensures buf[..] == Set16(old(buf[..]), i, v)
  {
    buf[i], buf[i + 1] := v / 256, v % 256;
  }

  /** memcpy of `src` into the buffer at `at`; the rest of the buffer is kept. */
  method CopyIn(buf: array<byte>, at: nat, src: Bytes)
    requires at + |src| <= buf.Length
    modifies buf
    ensures buf[..] == old(buf[..at]) + src + old(buf[at + |src|..])
  {
    forall j | 0 <= j < |src| {
      buf[at + j] := src[j];
    }
  }
}
