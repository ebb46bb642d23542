/** Java's 32-bit `int`: the range, wrap-around addition and the truncating
    remainder operator. */
module Int32 {

  const MIN: int := -0x8000_0000
  const MAX: int := 0x7fff_ffff
  const MODULUS: int := 0x1_0000_0000

  /** A value a Java `int` can hold. */
  type i32 = x: int | MIN <= x <= MAX

  /** Java's `a + b` on ints: the exact sum when it fits, otherwise the sum
      wrapped around by 2^32. */
  function Add(a: i32, b: i32): (r: i32)
    ensures MIN <= a + b <= MAX ==> r == a + b
    ensures (a + b - r) % MODULUS == 0
  {
    var s := a + b;
    if s > MAX then s - MODULUS else if s < MIN then s + MODULUS else s
  }

  /** Java's `a % b` for a positive divisor: the remainder truncates toward
      zero, so it has the sign of the dividend (Dafny's `%` never goes negative). */
  function Rem(a: i32, b: i32): (r: i32)
    requires b > 0
    ensures -b < r < b
    ensures a >= 0 ==> r == a % b
    ensures a < 0 ==> r == -((-(a as int)) % b)
  {
    if a >= 0 then a % b else -((-(a as int)) % b)
  }

  /** Adding `b` and then `-b` gives back the start, wrap-around or not. */
  lemma AddUndo(a: i32, b: i32)
    requires MIN < b
    ensures Add(Add(a, b), -b) == a
  {
  }
}
