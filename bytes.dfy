/** Fixed-width unsigned integers and the big-endian reading of a byte string.
    This is the reference against which every field reader of the parser is stated. */
module Bytes {

  /** An unsigned 8-bit value (Rust's `u8`). */
  type byte = x: int | 0 <= x < 0x100

  /** An unsigned 32-bit value (Rust's `u32`). */
  type u32 = x: int | 0 <= x < 0x1_0000_0000

  const TWO_24: nat := 0x100_0000
  const TWO_32: nat := 0x1_0000_0000

  /** 256 to the power `n`: one more than the largest value `n` bytes can hold. */
  function Pow256(n: nat): (r: nat)
    ensures r >= 1
  {
    if n == 0 then 1 else 256 * Pow256(n - 1)
  }

  /** The unsigned integer whose big-endian encoding is `s`. */
  function BeValue(s: seq<byte>): (r: nat)
    ensures r < Pow256(|s|)
  {
    if s == [] then 0
    else
      var high := BeValue(s[..|s| - 1]);
      assert high * 256 <= (Pow256(|s| - 1) - 1) * 256;
      high * 256 + s[|s| - 1]
  }

  /** The `n`-byte big-endian encoding of `x` (the low `n` bytes of `x`). */
  function EncodeBe(x: nat, n: nat): (s: seq<byte>)
    ensures |s| == n
  {
    if n == 0 then [] else EncodeBe(x / 256, n - 1) + [x % 256]
  }

  /** Reading back an encoding gives the encoded value, when it fits. */
  lemma {:induction false} BeValueOfEncode(x: nat, n: nat)
    requires x < Pow256(n)
    ensures BeValue(EncodeBe(x, n)) == x
  {
    if n > 0 {
      var s := EncodeBe(x, n);
      assert s[..n - 1] == EncodeBe(x / 256, n - 1);
      BeValueOfEncode(x / 256, n - 1);
    }
  }

  /** Encoding the value of a byte string gives the byte string back. */
  lemma {:induction false} EncodeOfBeValue(s: seq<byte>)
    ensures EncodeBe(BeValue(s), |s|) == s
  {
    if s != [] {
      var n := |s|;
      DivMod256(BeValue(s[..n - 1]), s[n - 1]);
      EncodeOfBeValue(s[..n - 1]);
      assert s == s[..n - 1] + [s[n - 1]];
    }
  }

  /** Splitting `high * 256 + low` at the low byte. */
  lemma DivMod256(high: nat, low: byte)
    ensures (high * 256 + low) / 256 == high
    ensures (high * 256 + low) % 256 == low
  {
  }
}
