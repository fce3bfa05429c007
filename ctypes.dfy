/** The C scalar types the program relies on: a 32-bit two's-complement `int`
    and an 8-bit `char`. */
module CTypes {
  /** sizeof(int). */
  const INT_SIZE: nat := 4
  const INT_MIN: int := -0x8000_0000
  const INT_MAX: int := 0x7fff_ffff

  newtype Byte = b: int | 0 <= b < 256

  predicate IsInt32(v: int) {
    INT_MIN <= v <= INT_MAX
  }

  /** A value a C `int` can hold. */
  type Int32 = v: int | INT_MIN <= v <= INT_MAX
}
