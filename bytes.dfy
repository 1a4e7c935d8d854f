/**
 * Bytes and unsigned big-endian integers, as produced by Python's
 * `int.to_bytes(k, 'big')` and consumed by `int.from_bytes(b, 'big')`.
 */
module Bytes {

  type byte = b: int | 0 <= b < 256

  /** 256 to the power k: the number of values k bytes can hold. */
  function Pow256(k: nat): (r: nat)
    ensures r >= 1
  {
    if k == 0 then 1 else 256 * Pow256(k - 1)
  }

  /** The k-byte big-endian representation of n (most significant byte first). */
  function ToBigEndian(n: nat, k: nat): (r: seq<byte>)
    requires n < Pow256(k)
    ensures |r| == k
  {
    if k == 0 then [] else ToBigEndian(n / 256, k - 1) + [n % 256]
  }

  /** The unsigned value of a big-endian byte string: the sum of b[i] * 256^(|b|-1-i). */
  function FromBigEndian(b: seq<byte>): (r: nat)
    ensures r < Pow256(|b|)
  {
    if b == [] then 0 else FromBigEndian(b[..|b| - 1]) * 256 + b[|b| - 1]
  }

  /** Decoding an encoded number gives the number back. */
  lemma {:induction false} FromToBigEndian(n: nat, k: nat)
    requires n < Pow256(k)
    ensures FromBigEndian(ToBigEndian(n, k)) == n
  {
    if k > 0 {
      var b := ToBigEndian(n, k);
      assert b[..k - 1] == ToBigEndian(n / 256, k - 1);
      FromToBigEndian(n / 256, k - 1);
    }
  }

  /** Encoding a decoded byte string gives the byte string back. */
  lemma {:induction false} ToFromBigEndian(b: seq<byte>)
    ensures ToBigEndian(FromBigEndian(b), |b|) == b
  {
    if b != [] {
      var init := b[..|b| - 1];
      ToFromBigEndian(init);
      assert b == init + [b[|b| - 1]];
    }
  }

  /** Four bytes hold exactly the values below 2^32. */
  lemma FourBytes()
    ensures Pow256(4) == 0x1_0000_0000
  {
  }
}
