/** PHP's integer operators as the calendar uses them. PHP's `intdiv` and `%`
    truncate toward zero, so for a negative dividend they differ from Dafny's
    Euclidean `/` and `%`; both are written out here for a positive divisor,
    the only kind the calendar passes (always 7). */
module Php {

  /** `intdiv(a, b)`: the quotient rounded toward zero. */
  function IntDiv(a: int, b: int): (q: int)
    requires b > 0
    ensures 0 <= a ==> b * q <= a < b * q + b
    ensures a < 0 ==> b * q - b < a <= b * q
  {
    if a >= 0 then a / b else -((-a) / b)
  }

  /** `a % b`: the remainder takes the sign of the dividend. */
  function Mod(a: int, b: int): (r: int)
    requires b > 0
    ensures a == b * IntDiv(a, b) + r
    ensures 0 <= a ==> 0 <= r < b
    ensures a < 0 ==> -b < r <= 0
  {
    if a >= 0 then a % b else -((-a) % b)
  }
}
