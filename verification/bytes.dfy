/**
  Fixed-width unsigned words and their little-endian byte layout, as the
  query-text buffer stores them (`*(uint64 *)&qbuffer[pos]` on a
  little-endian host).
 */
module Bytes {

  type byte = x: int | 0 <= x < 256

  const U64_LIMIT: int := 0x1_0000_0000_0000_0000

  /** A `uint64` value (also the bit pattern of an `int64` or a `double`). */
  type u64 = x: int | 0 <= x < U64_LIMIT

  /** C's conversion of an `int` to `uint64`: reduction modulo 2^64. */
  function ToU64(x: int): (r: u64)
    ensures 0 <= x < U64_LIMIT ==> r == x
    ensures x == -1 ==> r == U64_LIMIT - 1
  {
    x % U64_LIMIT
  }

  function Pow256(n: nat): (r: nat)
    ensures r >= 1
  {
    if n == 0 then 1 else 256 * Pow256(n - 1)
  }

  lemma Pow256Eight()
    ensures Pow256(8) == U64_LIMIT
  {
  }

  /** The low `n` bytes of `x`, least significant first. */
  function EncodeLE(x: nat, n: nat): (r: seq<byte>)
    ensures |r| == n
  {
    if n == 0 then [] else [x % 256] + EncodeLE(x / 256, n - 1)
  }

  /** The unsigned number whose little-endian bytes are `s`. */
  function DecodeLE(s: seq<byte>): nat
  {
    if s == [] then 0 else s[0] + 256 * DecodeLE(s[1..])
  }

  /** Decoding undoes encoding for every value that fits in `n` bytes. */
  lemma {:induction false} DecodeEncode(x: nat, n: nat)
    requires x < Pow256(n)
    ensures DecodeLE(EncodeLE(x, n)) == x
  {
    if n > 0 {
      var e := EncodeLE(x, n);
      assert e[1..] == EncodeLE(x / 256, n - 1);
      assert x / 256 < Pow256(n - 1) by {
        assert x < 256 * Pow256(n - 1);
      }
      DecodeEncode(x / 256, n - 1);
      assert DecodeLE(e) == x % 256 + 256 * (x / 256);
    }
  }

  /** Eight-byte words round-trip for every `u64`. */
  lemma DecodeEncodeU64(x: u64)
    ensures DecodeLE(EncodeLE(x, 8)) == x
  {
    Pow256Eight();
    DecodeEncode(x, 8);
  }
}
