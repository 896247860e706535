/** Machine types shared by the model: bytes and the C# 32-bit `int`. */
module Types {

  /** An unsigned 8-bit byte, as in a C# `byte[]`. */
  type byte = bv8

  const INT32_MIN: int := -0x8000_0000
  const INT32_MAX: int := 0x7FFF_FFFF

  /** The values of a C# `int`. */
  type int32 = x: int | INT32_MIN <= x <= INT32_MAX

  /** A strictly positive C# `int`: the admissible key sizes and iteration counts. */
  type PositiveInt32 = x: int | 0 < x <= INT32_MAX witness 1
}
