/** Integer widths and the fixed-width little-endian integer encoding used to build cache keys. */
module Coding {

  /** An unsigned 8-bit byte. */
  type byte = x: int | 0 <= x < 256

  const TWO_64: int := 0x1_0000_0000_0000_0000

  /** uint64_t: offsets, sizes and cache namespace ids. */
  type u64 = x: int | 0 <= x < TWO_64

  /** A Slice or std::string: a sequence of raw bytes. */
  type Bytes = seq<byte>

  function Pow256(n: nat): (r: nat)
    ensures r > 0
  {
    if n == 0 then 1 else 256 * Pow256(n - 1)
  }

  /** The n low-order bytes of v, least significant byte first. */
  function FixedLE(v: nat, n: nat): (r: Bytes)
    ensures |r| == n
  {
    if n == 0 then [] else [v % 256] + FixedLE(v / 256, n - 1)
  }

  /** EncodeFixed64: the 8 bytes of v, least significant first. */
  function EncodeFixed64(v: u64): (r: Bytes)
    ensures |r| == 8
  {
    FixedLE(v, 8)
  }

  /** Two numbers below 256^n that have the same n-byte encoding are equal. */
  lemma {:induction false} FixedLEInjective(a: nat, b: nat, n: nat)
    requires a < Pow256(n) && b < Pow256(n)
    requires FixedLE(a, n) == FixedLE(b, n)
    ensures a == b
  {
    if n > 0 {
      assert FixedLE(a, n)[0] == a % 256 && FixedLE(b, n)[0] == b % 256;
      assert FixedLE(a, n)[1..] == FixedLE(a / 256, n - 1);
      assert FixedLE(b, n)[1..] == FixedLE(b / 256, n - 1);
      FixedLEInjective(a / 256, b / 256, n - 1);
    }
  }

  /** Distinct 64-bit values never share an encoding. */
  lemma EncodeFixed64Injective(a: u64, b: u64)
    ensures EncodeFixed64(a) == EncodeFixed64(b) <==> a == b
  {
    if EncodeFixed64(a) == EncodeFixed64(b) {
      assert Pow256(8) == TWO_64;
      FixedLEInjective(a, b, 8);
    }
  }
}
