/**
 * Machine-level building blocks of the archive format: bytes, the signed
 * little-endian integers the records are made of, and the C library's
 * `strncmp` as the archive code uses it to compare fixed-width names.
 */
module Bytes {

  type byte = x: int | 0 <= x < 0x100
  type int16 = x: int | -0x8000 <= x < 0x8000
  type int32 = x: int | -0x8000_0000 <= x < 0x8000_0000

  /** `n` zero bytes: the value-initialised contents of a freshly resized buffer. */
  function Zeros(n: nat): (z: seq<byte>)
    ensures |z| == n
    ensures forall i :: 0 <= i < n ==> z[i] == 0
  {
    seq(n, _ => 0)
  }

  // ---------------------------------------------------------------------
  // Little-endian two's-complement integers
  // ---------------------------------------------------------------------

  /** Reads a signed 16-bit integer stored low byte first. */
  function DecodeInt16(bs: seq<byte>): (v: int16)
    requires |bs| == 2
  {
    var u: int := bs[0] as int + 0x100 * bs[1] as int;
    if u >= 0x8000 then u - 0x1_0000 else u
  }

  /** Writes a signed 16-bit integer low byte first; decoding gives it back. */
  function EncodeInt16(v: int16): (bs: seq<byte>)
    ensures |bs| == 2
    ensures DecodeInt16(bs) == v
  {
    var u := if v < 0 then v + 0x1_0000 else v;
    [u % 0x100, u / 0x100]
  }

  /** Reads a signed 32-bit integer stored low byte first. */
  function DecodeInt32(bs: seq<byte>): (v: int32)
    requires |bs| == 4
  {
    var u: int := bs[0] as int + 0x100 * bs[1] as int + 0x1_0000 * bs[2] as int + 0x100_0000 * bs[3] as int;
    if u >= 0x8000_0000 then u - 0x1_0000_0000 else u
  }

  /** Writes a signed 32-bit integer low byte first; decoding gives it back. */
  function EncodeInt32(v: int32): (bs: seq<byte>)
    ensures |bs| == 4
    ensures DecodeInt32(bs) == v
  {
    var u := if v < 0 then v + 0x1_0000_0000 else v;
    var q1 := u / 0x100;
    var q2 := q1 / 0x100;
    var q3 := q2 / 0x100;
    assert u == u % 0x100 + 0x100 * q1;
    assert q1 == q1 % 0x100 + 0x100 * q2;
    assert q2 == q2 % 0x100 + 0x100 * q3;
    assert q3 < 0x100;
    [u % 0x100, q1 % 0x100, q2 % 0x100, q3]
  }

  /** Every 2-byte pattern is the encoding of the value it decodes to. */
  lemma Int16Bijective(bs: seq<byte>)
    requires |bs| == 2
    ensures EncodeInt16(DecodeInt16(bs)) == bs
  {
  }

  /** Every 4-byte pattern is the encoding of the value it decodes to. */
  lemma Int32Bijective(bs: seq<byte>)
    requires |bs| == 4
    ensures EncodeInt32(DecodeInt32(bs)) == bs
  {
    var u: int := bs[0] as int + 0x100 * bs[1] as int + 0x1_0000 * bs[2] as int + 0x100_0000 * bs[3] as int;
    var q1 := bs[1] as int + 0x100 * bs[2] as int + 0x1_0000 * bs[3] as int;
    var q2 := bs[2] as int + 0x100 * bs[3] as int;
    assert u == bs[0] + 0x100 * q1;
    assert u / 0x100 == q1 && u % 0x100 == bs[0];
    assert q1 / 0x100 == q2 && q1 % 0x100 == bs[1];
    assert q2 / 0x100 == bs[3] && q2 % 0x100 == bs[2];
  }

  // ---------------------------------------------------------------------
  // strncmp
  // ---------------------------------------------------------------------

  /** A NUL-terminated C string, held without its terminator. */
  predicate IsCString(s: seq<byte>)
  {
    forall i :: 0 <= i < |s| ==> s[i] != 0
  }

  /** The byte `strncmp` sees at index `k` of an operand: past the held bytes lies the terminating NUL. */
  function CharAt(s: seq<byte>, k: nat): byte
  {
    if k < |s| then s[k] else 0
  }

  /** `strncmp(a, b, n) == 0`, comparing from index `k` on. */
  function StrNEqualFrom(a: seq<byte>, b: seq<byte>, n: nat, k: nat): bool
    decreases n - k
  {
    if k >= n then true
    else if CharAt(a, k) != CharAt(b, k) then false
    else if CharAt(a, k) == 0 then true
    else StrNEqualFrom(a, b, n, k + 1)
  }

  /** `strncmp(a, b, n) == 0`: at most `n` bytes are compared, and a NUL common to both ends the comparison. */
  predicate StrNEqual(a: seq<byte>, b: seq<byte>, n: nat)
  {
    StrNEqualFrom(a, b, n, 0)
  }

  /**
   * What comparing a C string `key` with an `n`-byte name buffer means: a key
   * of `n` or more bytes must agree with the whole buffer; a shorter key must
   * be a prefix of the buffer followed there by a NUL.
   */
  lemma StrNEqualCString(key: seq<byte>, name: seq<byte>, n: nat)
    requires IsCString(key) && |name| == n
    ensures StrNEqual(key, name, n) <==>
      if |key| >= n then key[..n] == name
      else name[..|key|] == key && name[|key|] == 0
  {
    StrNEqualCStringFrom(key, name, n, 0);
  }

  lemma {:induction false} StrNEqualCStringFrom(key: seq<byte>, name: seq<byte>, n: nat, k: nat)
    requires IsCString(key) && |name| == n
    requires k <= |key| && k <= n
    ensures StrNEqualFrom(key, name, n, k) <==>
      if |key| >= n then key[k..n] == name[k..]
      else name[k..|key|] == key[k..] && name[|key|] == 0
    decreases n - k
  {
    if k == n {
    } else if k == |key| {
      assert key[k..] == [] && name[k..k] == [];
    } else {
      StrNEqualCStringFrom(key, name, n, k + 1);
      if |key| >= n {
        assert key[k..n] == [key[k]] + key[k + 1..n];
        assert name[k..] == [name[k]] + name[k + 1..];
      } else {
        assert key[k..] == [key[k]] + key[k + 1..];
        assert name[k..|key|] == [name[k]] + name[k + 1..|key|];
      }
    }
  }

  /** Comparing two buffers of exactly `n` bytes with `strncmp(_, _, n)` is plain equality when one has no NUL. */
  lemma StrNEqualFixed(a: seq<byte>, b: seq<byte>, n: nat)
    requires |a| == n && |b| == n && IsCString(b)
    ensures StrNEqual(a, b, n) <==> a == b
  {
    StrNEqualSymmetric(a, b, n, 0);
    StrNEqualCString(b, a, n);
    assert b[..n] == b;
  }

  lemma {:induction false} StrNEqualSymmetric(a: seq<byte>, b: seq<byte>, n: nat, k: nat)
    ensures StrNEqualFrom(a, b, n, k) == StrNEqualFrom(b, a, n, k)
    decreases n - k
  {
    if k < n && CharAt(a, k) == CharAt(b, k) && CharAt(a, k) != 0 {
      StrNEqualSymmetric(a, b, n, k + 1);
    }
  }
}
