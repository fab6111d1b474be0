/** Ethernet II framing: a 14-byte header (destination MAC, source MAC,
    big-endian type) in front of a data field of at least 46 bytes
    (IEEE 802.3, clause 3, MAC frame format). */
module Ethernet {
  import opened Net

  const HDR_LEN: nat := 14
  const MIN_DATA: nat := 46
  const MTU: nat := 1500

  function Max(a: nat, b: nat): nat { if a < b then b else a }

  /** buf_add_padding: short payloads are zero-filled up to the 46-byte
      minimum; longer ones are left alone. */
  function Padded(p: Bytes): (r: Bytes)
    ensures |r| == Max(|p|, MIN_DATA)
    ensures r[..|p|] == p
    ensures forall j :: |p| <= j < |r| ==> r[j] == 0
  {
    if |p| < MIN_DATA then p + Zeros(MIN_DATA - |p|) else p
  }

  /** The bytes ethernet_out hands to the driver. */
  function Frame(payload: Bytes, dst: Mac, src: Mac, protocol: nat): (f: Bytes)
    requires protocol < 0x10000
    ensures |f| == Max(|payload|, MIN_DATA) + HDR_LEN
    ensures f[..6] == dst && f[6..12] == src && U16(f, 12) == protocol
    ensures f[HDR_LEN..] == Padded(payload)
  {
    dst + src + Be16(protocol) + Padded(payload)
  }

  /** What ethernet_in passes up: the data after the header, the type and the sender's MAC. */
  datatype Received = Received(payload: Bytes, protocol: nat, src: Mac)

  /** ethernet_in's reading of a frame: nothing for a frame shorter than
      the header. */
  function Parse(frame: Bytes): (r: Option<Received>)
    ensures r.None? <==> |frame| < HDR_LEN
    ensures r.Some? ==> |r.value.payload| == |frame| - HDR_LEN
                        && r.value.protocol < 0x10000
    ensures r.Some? ==> r.value.payload == frame[HDR_LEN..] && r.value.protocol == U16(frame, 12)
                        && r.value.src == frame[6..12]
  {
    if |frame| < HDR_LEN then None
    else Some(Received(frame[HDR_LEN..], U16(frame, 12), frame[6..12]))
  }

  /** The destination MAC of a frame that has a header. */
  function Dst(frame: Bytes): Mac
    requires |frame| >= HDR_LEN
  {
    frame[..6]
  }

  /** Round trip: reading back a frame built by ethernet_out yields the
      padded payload, the same type and our MAC as sender. */
  lemma ParseFrame(payload: Bytes, dst: Mac, src: Mac, protocol: nat)
    requires protocol < 0x10000
    ensures Parse(Frame(payload, dst, src, protocol)) == Some(Received(Padded(payload), protocol, src))
    ensures Dst(Frame(payload, dst, src, protocol)) == dst
  {
  }
}
