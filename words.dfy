/** 32-bit words and the signed int32_t values C stores in them. */
module Words {

  /** The two's complement reading of a 32-bit word. */
  function Int32(w: bv32): (n: int)
    ensures -0x8000_0000 <= n < 0x8000_0000
  {
    var u := w as int;
    if u < 0x8000_0000 then u else u - 0x1_0000_0000
  }

  /** The words that read as a positive int32_t: non-zero with the sign bit clear. */
  predicate IsPositiveInt32(w: bv32) {
    0 < w < 0x8000_0000
  }
}
