/**
 * Fixed-width integers of the command frame and the C++ conversions that
 * produce them. Floating-point values are modelled as reals.
 */
module Numeric {
  /** uint8_t: one byte of a frame. */
  newtype uint8 = x: int | 0 <= x < 0x100

  /** int16_t: the width of the command frame's scalar fields. */
  newtype int16 = x: int | -0x8000 <= x < 0x8000

  /**
   * Conversion of an integer to int16_t: the one int16 value congruent to x
   * modulo 2^16 (two's-complement wrap-around).
   */
  function Wrap16(x: int): (r: int16)
    ensures (r as int - x) % 0x1_0000 == 0
    ensures -0x8000 <= x < 0x8000 ==> r as int == x
  {
    var m := x % 0x1_0000;
    assert x == (x / 0x1_0000) * 0x1_0000 + m;
    if m < 0x8000 then m as int16 else (m - 0x1_0000) as int16
  }

  /** Wrap16 is determined by its congruence: no other int16 value is congruent to x. */
  lemma Wrap16Unique(x: int, y: int16)
    requires (y as int - x) % 0x1_0000 == 0
    ensures Wrap16(x) == y
  {
  }

  /** C++ conversion of a floating-point value to an integer: truncation toward zero. */
  function TruncToInt(x: real): (r: int)
    ensures 0.0 <= x ==> r as real <= x < r as real + 1.0
    ensures x < 0.0 ==> r as real - 1.0 < x <= r as real
  {
    if x >= 0.0 then x.Floor else -((-x).Floor)
  }

  /**
   * static_cast<int16_t> of a floating-point value: truncation toward zero; a
   * value outside the int16 range (undefined behaviour in C++) wraps.
   */
  function Int16OfFloat(x: real): (r: int16)
    ensures -32768.0 < x < 32768.0 ==> r as int == TruncToInt(x)
    ensures (r as int - TruncToInt(x)) % 0x1_0000 == 0
  {
    Wrap16(TruncToInt(x))
  }
}
