/**
 * Raw bytes and the `size_t` header that cherly writes in front of every
 * slab buffer. A `size_t` is 8 bytes, stored little-endian (the byte order of
 * the 64-bit targets the engine runs on).
 */
module Bytes {
  newtype byte = b: int | 0 <= b < 0x100

  /** sizeof(size_t) */
  const SIZE_T: nat := 8

  /** 2^64: one more than the largest `size_t` / `unsigned long long`. */
  const WORD_LIMIT: nat := 0x1_0000_0000_0000_0000

  function Pow256(n: nat): (r: nat)
    ensures r > 0
  {
    if n == 0 then 1 else 0x100 * Pow256(n - 1)
  }

  lemma WordLimitIsPow()
    ensures Pow256(SIZE_T) == WORD_LIMIT
  {
  }

  /** The `width` little-endian bytes of `n` (higher digits are dropped). */
  function EncodeWord(n: nat, width: nat): (s: seq<byte>)
    ensures |s| == width
  {
    if width == 0 then [] else [(n % 0x100) as byte] + EncodeWord(n / 0x100, width - 1)
  }

  /** The number that the little-endian bytes `s` spell. */
  function DecodeWord(s: seq<byte>): (n: nat)
    ensures n < Pow256(|s|)
  {
    if s == [] then 0 else s[0] as nat + 0x100 * DecodeWord(s[1..])
  }

  /** Reading back a header gives the number written, when it fits. */
  lemma {:induction false} DecodeEncode(n: nat, width: nat)
    requires n < Pow256(width)
    ensures DecodeWord(EncodeWord(n, width)) == n
  {
    if width > 0 {
      var s := EncodeWord(n, width);
      assert s[1..] == EncodeWord(n / 0x100, width - 1);
      DecodeEncode(n / 0x100, width - 1);
    }
  }

  /** Every byte string is the encoding of the number it spells. */
  lemma {:induction false} EncodeDecode(s: seq<byte>)
    ensures EncodeWord(DecodeWord(s), |s|) == s
  {
    if s != [] {
      var n := DecodeWord(s);
      assert n % 0x100 == s[0] as nat && n / 0x100 == DecodeWord(s[1..]);
      EncodeDecode(s[1..]);
    }
  }
}
