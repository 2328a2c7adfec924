/**
 The `int32_t` arithmetic of the image buffers: the range of the type and
 the conversion of a wider unsigned value into it, which keeps the low 32
 bits read as two's complement.
 */
module Int32 {
  const Modulus: int := 0x1_0000_0000

  /** v is a value of int32_t. */
  predicate InRange(v: int) {
    -0x8000_0000 <= v < 0x8000_0000
  }

  /**
   The conversion to int32_t of a value computed in a wider type: the
   int32_t congruent to v modulo 2^32.
   */
  function Wrap(v: int): (r: int)
    ensures InRange(r)
    ensures (v - r) % Modulus == 0
    ensures InRange(v) ==> r == v
  {
    var low := v % Modulus;
    if low < 0x8000_0000 then low else low - Modulus
  }
}
