// Colour values and the saturating conversion to an 8-bit channel
// (src/types.h).

module Types {

  /** One 8-bit colour channel, the `unsigned char` of the source. */
  type Byte = x: int | 0 <= x <= 255

  /** `RGB_uc`: a pixel of three 8-bit channels. */
  datatype RGB = RGB(r: Byte, g: Byte, b: Byte)

  /** The pixel a freshly sized buffer holds (value-initialised `RGB_uc`). */
  const Black: RGB := RGB(0, 0, 0)

  /**
   * `saturate_cast_uchar`: values above 255 become 255, negative values become
   * 0, and anything in between is truncated toward zero (which, for a
   * non-negative value, is its floor).
   */
  function SaturateCast(v: real): (r: int)
    ensures 0 <= r <= 255
    ensures SaturatedTo(v, r)
  {
    if v > 255.0 then 255
    else if v < 0.0 then 0
    else v.Floor
  }

  /**
   * `b` is what an 8-bit channel holds once `v` is stored into it with
   * saturation: 255 above the range, 0 below it, and inside it the integer
   * part of `v`. Exactly one `b` satisfies this for each `v`.
   */
  predicate SaturatedTo(v: real, b: int)
  {
    (v > 255.0 ==> b == 255) &&
    (v < 0.0 ==> b == 0) &&
    (0.0 <= v <= 255.0 ==> b as real <= v < b as real + 1.0)
  }

  /** Clamping an integer into the channel range. */
  function Clamp(v: int): Byte
  {
    if v > 255 then 255 else if v < 0 then 0 else v
  }

  lemma SaturateAbove(v: real)
    requires v > 255.0
    ensures SaturateCast(v) == 255
  {
  }

  lemma SaturateBelow(v: real)
    requires v < 0.0
    ensures SaturateCast(v) == 0
  {
  }

  /** An integer already in channel range passes through unchanged. */
  lemma SaturateOfByte(v: int)
    requires 0 <= v <= 255
    ensures SaturateCast(v as real) == v
  {
  }

  /**
   * On an exact integer argument (the brightness path adds an `int` to a
   * channel) the conversion is the clamp of that integer to [0, 255].
   */
  lemma SaturateOfInt(v: int)
    ensures SaturateCast(v as real) == Clamp(v)
  {
  }

  /** Between 0 and 255 the result is the largest integer not above `v`. */
  lemma SaturateTruncates(v: real)
    requires 0.0 <= v <= 255.0
    ensures SaturateCast(v) == v.Floor
    ensures SaturateCast(v) as real <= v < SaturateCast(v) as real + 1.0
  {
  }

  lemma SaturateMonotone(a: real, b: real)
    requires a <= b
    ensures SaturateCast(a) <= SaturateCast(b)
  {
  }

  lemma SaturateIdempotent(v: real)
    ensures SaturateCast(SaturateCast(v) as real) == SaturateCast(v)
  {
  }
}
