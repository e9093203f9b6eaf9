/** The fixed-width numbers the JavaScript engine hands over. */
module Numbers {

  /** A JavaScript integer as the engine reports it: a signed 32-bit value. */
  newtype Int32 = x: int | -0x8000_0000 <= x < 0x8000_0000

  /**
   * A 64-bit IEEE 754 float, kept as its bit pattern. Arithmetic on it is
   * not modelled; only whether it is finite matters to the converter.
   */
  datatype Double = Double(bits: bv64)

  /** The biased exponent field (bits 52 to 62) of a binary64 value. */
  function Exponent(d: Double): bv64 {
    (d.bits >> 52) & 0x7FF
  }

  /**
   * A binary64 value is finite unless its exponent field is all ones
   * (which encodes the infinities and NaN, section 3.4 of IEEE 754-2008).
   */
  predicate IsFinite(d: Double) {
    Exponent(d) != 0x7FF
  }
}
