/** Byte strings, and the fixed-width big-endian integers the wire and the storage keys use. */
module Bytes {

  type byte = x: int | 0 <= x < 256

  type Bytes = seq<byte>

  /** The result of SHA-256: always 32 bytes. */
  type Digest = b: Bytes | |b| == 32 witness seq(32, _ => 0)

  datatype Option<+T> = None | Some(value: T)

  const TWO_32: nat := 0x1_0000_0000
  const TWO_64: nat := 0x1_0000_0000_0000_0000

  function Pow256(n: nat): (r: nat)
    ensures r > 0
  {
    if n == 0 then 1 else 256 * Pow256(n - 1)
  }

  /** The unsigned integer whose big-endian bytes are `b`. */
  function FromBigEndian(b: Bytes): nat {
    if |b| == 0 then 0 else 256 * FromBigEndian(b[..|b| - 1]) + b[|b| - 1]
  }

  /** The low `width` bytes of `v`, most significant first. */
  function ToBigEndian(v: nat, width: nat): (b: Bytes)
    ensures |b| == width
  {
    if width == 0 then [] else ToBigEndian(v / 256, width - 1) + [v % 256]
  }

  lemma {:induction false} FromToBigEndian(v: nat, width: nat)
    requires v < Pow256(width)
    ensures FromBigEndian(ToBigEndian(v, width)) == v
  {
    if width > 0 {
      FromToBigEndian(v / 256, width - 1);
      var b := ToBigEndian(v, width);
      assert b[..width - 1] == ToBigEndian(v / 256, width - 1);
    }
  }

  lemma {:induction false} ToFromBigEndian(b: Bytes)
    ensures FromBigEndian(b) < Pow256(|b|)
    ensures ToBigEndian(FromBigEndian(b), |b|) == b
  {
    if |b| > 0 {
      ToFromBigEndian(b[..|b| - 1]);
      assert b == b[..|b| - 1] + [b[|b| - 1]];
    }
  }

  lemma Pow256Values()
    ensures Pow256(4) == TWO_32
    ensures Pow256(8) == TWO_64
  {
    assert Pow256(1) == 256;
    assert Pow256(2) == 256 * 256;
    assert Pow256(3) == 256 * 256 * 256;
    assert Pow256(5) == 256 * Pow256(4);
    assert Pow256(6) == 256 * Pow256(5);
    assert Pow256(7) == 256 * Pow256(6);
  }

  /** The concatenation of a list of byte strings. */
  function Concat(parts: seq<Bytes>): Bytes {
    if |parts| == 0 then [] else parts[0] + Concat(parts[1..])
  }

  /** The bytes of an ASCII literal. */
  function Ascii(s: string): (b: Bytes)
    ensures |b| == |s| && forall i :: 0 <= i < |s| ==> b[i] == s[i] as int % 256
  {
    seq(|s|, i requires 0 <= i < |s| => s[i] as int % 256)
  }
}
