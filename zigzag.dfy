/** ZigZag decoding of the 16-bit vertex delta codes (index.js `decodeZigZag`),
    the inverse of the Protocol Buffers ZigZag mapping. */
module ZigZag {
  import opened Bytes

  /** `x ^ mask` on two's-complement integers when mask is 0 or -1 (all ones):
      XOR with zero is the identity and XOR with all ones is bitwise NOT, -x-1. */
  function XorSignMask(x: int, mask: int): int
    requires mask == 0 || mask == -1
  {
    if mask == 0 then x else -x - 1
  }

  /** `(value >> 1) ^ (-(value & 1))`: for a non-negative value, `>> 1` is
      halving and `& 1` the parity bit, so the mask is 0 or -1.
      Even codes give value/2, odd codes give -(value+1)/2. */
  function DecodeZigZag(value: u16): (r: int)
    ensures value % 2 == 0 ==> r == value / 2
    ensures value % 2 == 1 ==> r == -((value + 1) / 2)
    ensures -0x8000 <= r < 0x8000
  {
    XorSignMask(value / 2, -(value % 2))
  }

  /** The forward ZigZag mapping the encoder applies, `(x << 1) ^ (x >> 15)`:
      non-negative x to 2x, negative x to -2x-1. */
  function EncodeZigZag(x: int): (r: u16)
    requires -0x8000 <= x < 0x8000
    ensures x >= 0 <==> r % 2 == 0
  {
    if x >= 0 then 2 * x else -2 * x - 1
  }

  lemma DecodeEncode(x: int)
    requires -0x8000 <= x < 0x8000
    ensures DecodeZigZag(EncodeZigZag(x)) == x
  {
  }

  lemma EncodeDecode(n: u16)
    ensures EncodeZigZag(DecodeZigZag(n)) == n
  {
  }

  /** DecodeZigZag is a bijection from [0, 65535] onto [-32768, 32767]. */
  lemma DecodeZigZagBijective()
    ensures forall m: u16, n: u16 :: DecodeZigZag(m) == DecodeZigZag(n) ==> m == n
    ensures forall x: int :: -0x8000 <= x < 0x8000 ==> DecodeZigZag(EncodeZigZag(x)) == x
  {
    forall m: u16, n: u16 | DecodeZigZag(m) == DecodeZigZag(n) ensures m == n {
      EncodeDecode(m);
      EncodeDecode(n);
    }
  }
}
