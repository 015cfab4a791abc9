/** Go's 64-bit `int` and `int64`: the range, wrap-around on overflow, and
    integer division that truncates toward zero. The service is assumed to
    run on a 64-bit platform, where `int` is 64 bits wide. */
module GoInt {

  const MinInt64: int := -0x8000_0000_0000_0000
  const MaxInt64: int := 0x7FFF_FFFF_FFFF_FFFF
  const Modulus: int := 0x1_0000_0000_0000_0000

  predicate InInt64(x: int) {
    MinInt64 <= x <= MaxInt64
  }

  /** The value a Go `int` holds after an arithmetic result `x` is stored:
      two's-complement wrap-around. */
  function Wrap(x: int): (r: int)
    ensures InInt64(r)
    ensures (x - r) % Modulus == 0
    ensures InInt64(x) ==> r == x
  {
    (x - MinInt64) % Modulus + MinInt64
  }

  /** Go's `a / b` for a positive divisor: the quotient rounded toward zero. */
  function Quo(a: int, b: int): (q: int)
    requires b > 0
    ensures a >= 0 ==> 0 <= a - q * b < b
    ensures a < 0 ==> -b < a - q * b <= 0
  {
    if a >= 0 then a / b else -((-a) / b)
  }
}
