/** Python's `min` and `max` on two integers, as `max(0, width - len(s))` and slice clamping use them. */
module Arith {

  function Min(a: int, b: int): int
  {
    if a <= b then a else b
  }

  function Max(a: int, b: int): int
  {
    if a >= b then a else b
  }
}
