/** Rust's `i64`: the width of both fields of every rate in the system. */
module Int64 {

  const MIN: int := -0x8000_0000_0000_0000
  const MAX: int := 0x7fff_ffff_ffff_ffff

  newtype i64 = x: int | MIN <= x <= MAX

  /** Mathematical absolute value (so `Abs(MIN)` is `2^63`, not an overflow). */
  function Abs(x: int): (a: nat)
    ensures a == x || a == -x
  {
    if x < 0 then -x else x
  }
}
