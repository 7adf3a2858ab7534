/** Sample formats of the pipeline: 32-bit samples as the I2S bus delivers them
    and the 16-bit samples every later stage works on, with the narrowing
    conversion between them (an arithmetic shift right by 8 followed by a
    two's-complement truncation to 16 bits). */
module SampleFormat {

  const Int16Modulus: int := 0x1_0000
  const Int32Modulus: int := 0x1_0000_0000

  /** `int16_t` */
  type Int16 = x: int | -0x8000 <= x < 0x8000
  /** `int32_t` */
  type Int32 = x: int | -0x8000_0000 <= x < 0x8000_0000

  /** The narrowing shift drops 8 bits: `x >> 8` divides by 2^8. */
  const ShiftDivisor: nat := 0x100

  /** `x >> 8` on a signed value: the arithmetic shift, which rounds towards
      negative infinity (Dafny's `/` by a positive divisor is floor division). */
  function ShiftRight8(x: int): (r: int)
    ensures r * ShiftDivisor <= x < r * ShiftDivisor + ShiftDivisor
  {
    x / ShiftDivisor
  }

  /** The C conversion `(int16_t)v`: keeps the low 16 bits and reads them as a
      two's-complement value. */
  function TruncateToInt16(v: int): (r: Int16)
    ensures (v - r) % Int16Modulus == 0
    ensures -0x8000 <= v < 0x8000 ==> r == v
  {
    (v + 0x8000) % Int16Modulus - 0x8000
  }

  /** One narrow sample from one wide sample: `(int16_t)(x >> 8)`. */
  function Narrow(x: Int32): Int16
  {
    TruncateToInt16(ShiftRight8(x))
  }

  /** Narrows every sample of a block, one by one. */
  function NarrowAll(s: seq<Int32>): (r: seq<Int16>)
    ensures |r| == |s|
    ensures forall i :: 0 <= i < |s| ==> r[i] == Narrow(s[i])
  {
    seq(|s|, i requires 0 <= i < |s| => Narrow(s[i]))
  }

  /** A wide sample whose value fits in 24 bits narrows without wrap-around:
      the narrow sample is the floor of `x / 256`. */
  lemma NarrowNoWrap(x: Int32)
    requires -0x80_0000 <= x < 0x80_0000
    ensures Narrow(x) * ShiftDivisor <= x < Narrow(x) * ShiftDivisor + ShiftDivisor
  {
    var q := ShiftRight8(x);
    assert -0x8000 <= q < 0x8000;
  }

  /** Outside 24 bits the conversion wraps: the largest 32-bit sample narrows
      to -1 rather than saturating. */
  lemma NarrowWraps()
    ensures Narrow(0x7FFF_FFFF) == -1
    ensures Narrow(-0x8000_0000) == 0
  {
  }

  lemma ModOfDifference16(a: int, b: int)
    requires (a - b) % Int16Modulus == 0
    ensures a % Int16Modulus == b % Int16Modulus
  {
    var k := (a - b) / Int16Modulus;
    ModAddMultiple16(b, k);
  }

  lemma ModAddMultiple16(a: int, k: int)
    ensures (a + k * Int16Modulus) % Int16Modulus == a % Int16Modulus
  {
  }

  /** Bit-level reading of the conversion: the 16-bit pattern of the narrow
      sample is bits 8 to 23 of the 32-bit pattern of the wide sample. */
  lemma NarrowIsMiddleBits(x: Int32)
    ensures Narrow(x) % Int16Modulus == (x % Int32Modulus) / ShiftDivisor % Int16Modulus
  {
    var q := ShiftRight8(x);
    var r := Narrow(x);
    ModOfDifference16(q, r);
    if x < 0 {
      var u := x + Int32Modulus;
      assert x % Int32Modulus == u;
      assert u / ShiftDivisor == q + 0x100_0000 by {
        assert (q + 0x100_0000) * ShiftDivisor <= u < (q + 0x100_0000) * ShiftDivisor + ShiftDivisor;
      }
      ModAddMultiple16(q, 0x100);
    } else {
      assert x % Int32Modulus == x;
    }
  }
}
