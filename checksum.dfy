/** The Internet checksum of RFC 1071, used for the IPv4 header and for
    ICMP messages: the one's-complement of the one's-complement sum of the
    buffer read as big-endian 16-bit words, an odd trailing byte padded
    with a zero byte. */
module Checksum {
  import opened Net

  const ONES: nat := 0xFFFF

  /** Plain (unbounded) sum of the buffer's big-endian 16-bit words. */
  function WordSum(s: Bytes): nat
    decreases |s|
  {
    if |s| == 0 then 0
    else if |s| == 1 then s[0] * 256
    else s[0] * 256 + s[1] + WordSum(s[2..])
  }

  /** One end-around-carry step keeps the value modulo 0xFFFF and shrinks it. */
  lemma CarryStep(x: nat)
    requires x > ONES
    ensures var y := x % 0x10000 + x / 0x10000;
      0 < y < x && y % ONES == x % ONES
  {
    var q, m := x / 0x10000, x % 0x10000;
    assert x == 0x10000 * q + m;
    assert q >= 1;
    assert x == ONES * q + (m + q);
    AddMultiple(m + q, q);
  }

  /** Adding a multiple of 0xFFFF does not change the residue modulo 0xFFFF. */
  lemma {:induction false} AddMultiple(a: nat, k: nat)
    ensures (ONES * k + a) % ONES == a % ONES
  {
    if k > 0 {
      AddMultiple(a, k - 1);
      assert ONES * k + a == (ONES * (k - 1) + a) + ONES;
    }
  }

  /** Folds the carries back in until the sum fits 16 bits: the
      one's-complement sum. It keeps the value modulo 0xFFFF and is zero
      only for zero. */
  function Fold(x: nat): (r: nat)
    ensures r <= ONES
    ensures r % ONES == x % ONES
    ensures (r == 0) <==> (x == 0)
    decreases x
  {
    if x <= ONES then x
    else
      CarryStep(x);
      Fold(x % 0x10000 + x / 0x10000)
  }

  /** The checksum16 routine: complement of the folded word sum. */
  function Checksum16(s: Bytes): (r: nat)
    ensures r < 0x10000
  {
    ONES - Fold(WordSum(s))
  }

  /** A receiver's verdict per section 1 of RFC 1071: the folded sum over
      the whole message, checksum field included, is all ones. */
  predicate Verifies(s: Bytes)
  {
    Fold(WordSum(s)) == ONES
  }

  /** Filling a zeroed, word-aligned 16-bit field with `v` adds `v` to the word sum. */
  lemma {:induction false} WordSumSet16(s: Bytes, k: nat, v: nat)
    requires k % 2 == 0 && k + 2 <= |s| && v < 0x10000
    requires s[k] == 0 && s[k + 1] == 0
    ensures WordSum(Set16(s, k, v)) == WordSum(s) + v
    decreases k
  {
    var r := Set16(s, k, v);
    if k == 0 {
      assert (r[0] as int) * 256 + r[1] == v;
      assert r[2..] == s[2..];
    } else {
      assert r[2..] == Set16(s[2..], k - 2, v);
      WordSumSet16(s[2..], k - 2, v);
    }
  }

  /** Changing one byte moves the word sum by the change times the byte's
      weight in its 16-bit word: 256 at an even position, 1 at an odd one. */
  lemma {:induction false} WordSumChange(s: Bytes, t: Bytes, j: nat)
    requires |s| == |t| && j < |s|
    requires forall i :: 0 <= i < |s| && i != j ==> s[i] == t[i]
    ensures WordSum(t) == WordSum(s) + (t[j] as int - s[j] as int) * (if j % 2 == 0 then 256 else 1)
    decreases j
  {
    if j >= 2 {
      WordSumChange(s[2..], t[2..], j - 2);
    } else if |s| >= 2 {
      assert s[2..] == t[2..];
    }
  }

  /** Moving a value by a nonzero amount smaller than 0xFFFF changes its
      residue modulo 0xFFFF. */
  lemma ResidueShift(x: int, d: int)
    requires d != 0 && (if d < 0 then -d else d) < ONES
    requires x >= 0 && x + d >= 0
    ensures (x + d) % ONES != x % ONES
  {
  }

  /** The checksum detects any single changed byte: two buffers that differ
      in exactly one position have different checksums. */
  lemma ChecksumDetectsByteChange(s: Bytes, t: Bytes, j: nat)
    requires |s| == |t| && j < |s| && s[j] != t[j]
    requires forall i :: 0 <= i < |s| && i != j ==> s[i] == t[i]
    ensures Checksum16(t) != Checksum16(s)
  {
    WordSumChange(s, t, j);
    ResidueShift(WordSum(s), (t[j] as int - s[j] as int) * (if j % 2 == 0 then 256 else 1));
  }

  /** A positive multiple of 0xFFFF folds to all ones. */
  lemma FoldOfMultiple(t: nat)
    requires t > 0 && t % ONES == 0
    ensures Fold(t) == ONES
  {
    var f := Fold(t);
    assert 0 < f <= ONES && f % ONES == 0;
  }

  /** Adding the complement of a sum's residue gives a positive multiple
      of 0xFFFF. */
  lemma ComplementMultiple(sum: nat, f: nat)
    requires f < ONES && f == sum % ONES
    ensures sum + ONES - f > 0 && (sum + ONES - f) % ONES == 0
  {
    var q := sum / ONES;
    assert sum == ONES * q + f;
    assert sum + ONES - f == ONES * (q + 1) + 0;
    AddMultiple(0, q + 1);
  }

  /** RFC 1071 round trip: storing `Checksum16(s)` in a zeroed, word-aligned
      field of `s` yields a buffer that verifies. */
  lemma ChecksumVerifies(s: Bytes, k: nat)
    requires k % 2 == 0 && k + 2 <= |s|
    requires s[k] == 0 && s[k + 1] == 0
    ensures Verifies(Set16(s, k, Checksum16(s)))
  {
    var sum := WordSum(s);
    var f := Fold(sum);
    var c := Checksum16(s);
    WordSumSet16(s, k, c);
    var t := sum + c;
    if f == ONES {
      assert t == sum;
    } else {
      ComplementMultiple(sum, f);
      FoldOfMultiple(t);
    }
  }
}
