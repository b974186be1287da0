/** Unsigned 8-bit values and the C conversions the bridge relies on.
    Every `byte` and `char` of the controller protocol is modelled as a Byte;
    the truncation C performs when an `int` result is stored back into an
    8-bit variable is written out as ToByte. */
module Bytes {

  /** An unsigned 8-bit value (`byte`, `uint8_t`, or an unsigned `char`). */
  type Byte = b: int | 0 <= b < 256

  /** Conversion of an integer to an unsigned 8-bit type: keep the low 8 bits.
      Dafny's `%` is Euclidean, so negative differences wrap as in C. */
  function ToByte(x: int): Byte {
    x % 256
  }

  /** The value a Byte has when it is read as a signed two's-complement `char`. */
  function SignedChar(b: Byte): int {
    if b < 128 then b else b - 256
  }

  /** ToByte keeps the value modulo 256 and is the identity on bytes. */
  lemma ToByteSpec(x: int)
    ensures (x - ToByte(x)) % 256 == 0
    ensures 0 <= x < 256 ==> ToByte(x) == x
  {
  }

  /** ToByte depends on its argument modulo 256 only. */
  lemma ToByteCongruent(x: int, y: int)
    requires (x - y) % 256 == 0
    ensures ToByte(x) == ToByte(y)
  {
  }

  /** A signed `char` holds the same bits as the byte it was read from. */
  lemma SignedCharSpec(b: Byte)
    ensures -128 <= SignedChar(b) < 128
    ensures (SignedChar(b) - b) % 256 == 0
    ensures ToByte(SignedChar(b)) == b
  {
  }
}
