/**
 * Java's 32-bit signed `int`, as far as the image code relies on it:
 * the value range of the type and the wrap-around of `+`.
 */
module JavaInt {

  const MinInt32: int := -0x8000_0000
  const MaxInt32: int := 0x7FFF_FFFF

  /** The values of a Java `int`. */
  type int32 = x: int | MinInt32 <= x <= MaxInt32

  /** Java `a + b` on two ints: the exact sum reduced into the int range (two's complement). */
  function AddInt32(a: int32, b: int32): (s: int32)
    ensures MinInt32 <= a + b <= MaxInt32 ==> s == a + b
    ensures a + b > MaxInt32 ==> s == a + b - 0x1_0000_0000
    ensures a + b < MinInt32 ==> s == a + b + 0x1_0000_0000
  {
    (a + b - MinInt32) % 0x1_0000_0000 + MinInt32
  }
}
