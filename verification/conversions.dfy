/**
 Fixed-point conversions of the Si7021 driver: assembling the two response
 bytes into a 16-bit raw reading and the datasheet linearisations for
 temperature (hundredths of a degree Celsius) and relative humidity (percent
 and basis points), computed on a 32-bit signed `long` and returned through
 `int` or `unsigned int`.
 */
module Conversions {
  import opened Bytes

  /** A 16-bit raw register value as assembled from two response bytes. */
  type raw16 = r: int | 0 <= r < 0x1_0000

  const LONG_MIN: int := -0x8000_0000
  const LONG_MAX: int := 0x7FFF_FFFF

  /** The raw value's scale: `>> 16` divides by 2^16. */
  const RAW_SCALE: int := 0x1_0000

  // ---------------------------------------------------------------------------
  // Raw value assembly
  // ---------------------------------------------------------------------------

  /** `(long)b0 << 8 | b1`: the first byte received is the most significant. */
  function RawFromBytes(hi: byte, lo: byte): (raw: raw16)
    ensures raw / 0x100 == hi && raw % 0x100 == lo
  {
    hi * 0x100 + lo
  }

  /** The high and low byte the sensor sends for a raw value. */
  function HighByte(raw: raw16): byte { raw / 0x100 }
  function LowByte(raw: raw16): byte { raw % 0x100 }

  /** Sending a raw value big-endian and assembling it again gives it back. */
  lemma RawRoundTrip(raw: raw16)
    ensures RawFromBytes(HighByte(raw), LowByte(raw)) == raw
  {
  }

  /** Assembly is injective: distinct byte pairs give distinct raw values. */
  lemma RawFromBytesInjective(h1: byte, l1: byte, h2: byte, l2: byte)
    requires RawFromBytes(h1, l1) == RawFromBytes(h2, l2)
    ensures h1 == h2 && l1 == l2
  {
  }

  /** On 16-bit words, shifting the high byte left by 8 and or-ing in the low
      byte is the same as multiplying by 256 and adding. The source computes
      on a 32-bit `long`, and this bit-vector fact is not connected formally
      to RawFromBytes, which is stated on integers; it only justifies reading
      the shift-or as an addition. */
  lemma ShiftOrIsAdd(hi: bv16, lo: bv16)
    requires hi < 0x100 && lo < 0x100
    ensures (hi << 8) | lo == hi * 0x100 + lo
  {
  }

  // ---------------------------------------------------------------------------
  // C integer semantics used by the formulas
  // ---------------------------------------------------------------------------

  /** The value a 32-bit two's-complement `long` holds for a mathematical
      result. Signed overflow is undefined behaviour in C, so the wrap modulo
      2^32 outside the range is a choice of this model, not a promise of the
      program; it never applies, because ProductsFitInLong shows that every
      product the driver computes is in range. */
  function Long(x: int): (r: int)
    ensures LONG_MIN <= r <= LONG_MAX
    ensures (r - x) % 0x1_0000_0000 == 0
    ensures LONG_MIN <= x <= LONG_MAX ==> r == x
  {
    (x - LONG_MIN) % 0x1_0000_0000 + LONG_MIN
  }

  /** The width of the platform's `unsigned int`: 16 bits on AVR boards,
      32 bits on ARM boards. */
  datatype UIntWidth = U16 | U32 {
    function Modulus(): (m: nat)
      ensures m >= 0x1_0000
    {
      match this
      case U16 => 0x1_0000
      case U32 => 0x1_0000_0000
    }
  }

  /** Conversion of a signed value to `unsigned int`: reduction modulo
      2^width. */
  function ToUnsigned(x: int, w: UIntWidth): (r: nat)
    ensures r < w.Modulus()
    ensures 0 <= x < w.Modulus() ==> r == x
    ensures -(w.Modulus() as int) <= x < 0 ==> r == x + w.Modulus()
  {
    var m: int := w.Modulus();
    if -m <= x < 0 then ModOfNegative(x, m); x % m
    else if 0 <= x < m then ModOfSmall(x, m); x % m
    else x % m
  }

  lemma ModOfSmall(x: int, m: int)
    requires 0 <= x < m
    ensures x % m == x
  {
  }

  lemma ModOfNegative(x: int, m: int)
    requires -m <= x < 0
    ensures x % m == x + m
  {
  }

  /** Arithmetic right shift by 16 of a `long`, as the compiler implements it:
      division by 2^16 rounding towards minus infinity. */
  function Shr16(x: int): int
  {
    x / RAW_SCALE
  }

  // ---------------------------------------------------------------------------
  // The linearisations
  // ---------------------------------------------------------------------------

  /** `((17572 * raw) >> 16) - 4685`: temperature in hundredths of a degree
      Celsius. The result is the floor of the datasheet formula
      175.72 * raw / 65536 - 46.85, scaled by 100. */
  function CelsiusHundredths(raw: raw16): (c: int)
    ensures -4685 <= c <= 12886
    ensures RAW_SCALE * (c + 4685) <= 17572 * raw < RAW_SCALE * (c + 4686)
  {
    Shr16(Long(17572 * raw)) - 4685
  }

  /** `((125 * raw) >> 16) - 6` as computed on a `long`, before the conversion
      to the `unsigned int` return type. It is the floor of the datasheet
      formula 125 * raw / 65536 - 6. */
  function SignedHumidityPercent(raw: raw16): (h: int)
    ensures -6 <= h <= 118
    ensures RAW_SCALE * (h + 6) <= 125 * raw < RAW_SCALE * (h + 7)
  {
    Shr16(Long(125 * raw)) - 6
  }

  /** `((12500 * raw) >> 16) - 600` as computed on a `long`: relative humidity
      in hundredths of a percent, before the conversion to `unsigned int`. */
  function SignedHumidityBasisPoints(raw: raw16): (h: int)
    ensures -600 <= h <= 11899
    ensures RAW_SCALE * (h + 600) <= 12500 * raw < RAW_SCALE * (h + 601)
  {
    Shr16(Long(12500 * raw)) - 600
  }

  /** getHumidityPercent's result: the signed value converted to an
      `unsigned int` of the platform's width. Below the formula's zero it wraps to
      a large value instead of saturating. */
  function HumidityPercent(raw: raw16, w: UIntWidth): (h: nat)
    ensures SignedHumidityPercent(raw) >= 0 ==> h == SignedHumidityPercent(raw)
    ensures SignedHumidityPercent(raw) < 0 ==> h == SignedHumidityPercent(raw) + w.Modulus()
  {
    ToUnsigned(SignedHumidityPercent(raw), w)
  }

  /** getHumidityBasisPoints's result, converted like HumidityPercent. */
  function HumidityBasisPoints(raw: raw16, w: UIntWidth): (h: nat)
    ensures SignedHumidityBasisPoints(raw) >= 0 ==> h == SignedHumidityBasisPoints(raw)
    ensures SignedHumidityBasisPoints(raw) < 0 ==> h == SignedHumidityBasisPoints(raw) + w.Modulus()
  {
    ToUnsigned(SignedHumidityBasisPoints(raw), w)
  }

  // ---------------------------------------------------------------------------
  // Properties of the linearisations
  // ---------------------------------------------------------------------------

  /** None of the three products overflows the 32-bit `long` they are
      computed on: the largest, 17572 * 65535, is 1151581020. */
  lemma ProductsFitInLong(raw: raw16)
    ensures 0 <= 12500 * raw <= 17572 * raw <= 1151581020 <= LONG_MAX
    ensures Long(17572 * raw) == 17572 * raw
    ensures Long(12500 * raw) == 12500 * raw
    ensures Long(125 * raw) == 125 * raw
  {
  }

  /** The Celsius result also fits a 16-bit `int`, the return type on AVR,
      and both ends of its range are reached. */
  lemma CelsiusRange()
    ensures CelsiusHundredths(0) == -4685
    ensures CelsiusHundredths(0xFFFF) == 12886
    ensures forall raw: raw16 :: -0x8000 <= CelsiusHundredths(raw) < 0x8000
  {
  }

  /** A larger raw reading never gives a lower temperature. */
  lemma CelsiusMonotone(r1: raw16, r2: raw16)
    requires r1 <= r2
    ensures CelsiusHundredths(r1) <= CelsiusHundredths(r2)
  {
  }

  /** The signed humidity formulas, before the unsigned return, never
      decrease as the raw reading grows. The values the driver returns do
      not share this: see UnsignedHumidityDrops. */
  lemma HumidityMonotone(r1: raw16, r2: raw16)
    requires r1 <= r2
    ensures SignedHumidityPercent(r1) <= SignedHumidityPercent(r2)
    ensures SignedHumidityBasisPoints(r1) <= SignedHumidityBasisPoints(r2)
  {
  }

  /** Humidity is below zero exactly for raw readings up to 3145, on both
      scales: 125 * 3145 < 6 * 65536 <= 125 * 3146. */
  lemma HumidityNegativeIff(raw: raw16)
    ensures SignedHumidityPercent(raw) < 0 <==> raw <= 3145
    ensures SignedHumidityBasisPoints(raw) < 0 <==> raw <= 3145
  {
  }

  /** What the caller receives from getHumidityPercent and
      getHumidityBasisPoints lies in the physical range exactly when the raw
      reading is above 3145; otherwise the negative value has wrapped past
      every valid reading. */
  lemma UnsignedHumidityWrapsIff(raw: raw16, w: UIntWidth)
    ensures HumidityPercent(raw, w) <= 118 <==> raw > 3145
    ensures HumidityBasisPoints(raw, w) <= 11899 <==> raw > 3145
    ensures HumidityPercent(raw, w) + 6 == (HumidityBasisPoints(raw, w) + 600) / 100 <==> raw > 3145
  {
    HumidityNegativeIff(raw);
    PercentMatchesBasisPoints(raw);
  }

  /** Between raw 3145 and 3146 the values getHumidityPercent and
      getHumidityBasisPoints return fall from the largest `unsigned int` to
      0: the returned humidity is not monotone in the raw reading. */
  lemma UnsignedHumidityDrops(w: UIntWidth)
    ensures HumidityPercent(3145, w) == w.Modulus() - 1
    ensures HumidityPercent(3146, w) == 0
    ensures HumidityBasisPoints(3145, w) == w.Modulus() - 1
    ensures HumidityBasisPoints(3146, w) == 0
  {
  }

  /** The two signed humidity formulas, before the unsigned return, agree:
      dropping the last two digits of the basis points gives the percent,
      because
      floor(floor(12500 * raw / 65536) / 100) == floor(125 * raw / 65536). */
  lemma PercentMatchesBasisPoints(raw: raw16)
    ensures SignedHumidityPercent(raw) + 6 == (SignedHumidityBasisPoints(raw) + 600) / 100
    ensures 100 * SignedHumidityPercent(raw) <= SignedHumidityBasisPoints(raw) < 100 * SignedHumidityPercent(raw) + 100
  {
  }


  /** Sample readings of the signed formulas, before any unsigned return:
      the humidity formula is not special-cased at raw 0, and the values at
      0x7A64 and 0x6E90 are what the integer formulas give. */
  lemma WorkedExamples()
    ensures SignedHumidityPercent(0) == -6
    ensures CelsiusHundredths(0x7A64) == 3715
    ensures SignedHumidityPercent(0x6E90) == 47
    ensures SignedHumidityBasisPoints(0x6E90) == 4798
  {
  }
}
