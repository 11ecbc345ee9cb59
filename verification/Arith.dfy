/** Division with remainder, shared by several modules. */
module Arith {

  type Byte = x: int | 0 <= x < 256

  /** C division and remainder truncate toward zero. */
  function Quot(a: int, b: int): int
    requires b > 0
  {
    if a >= 0 then a / b else -((-a) / b)
  }

  function Rem(a: int, b: int): int
    requires b > 0
  {
    a - b * Quot(a, b)
  }

  lemma ProductAtLeast(q: int, b: int)
    requires b > 0
    ensures q >= 1 ==> b * q >= b
    ensures q <= -1 ==> b * q <= -b
  {
  }

  /** Quotient and remainder are the only pair that recombines. */
  lemma DivModIs(a: int, b: int, q: int, r: int)
    requires b > 0 && a == b * q + r && 0 <= r < b
    ensures a / b == q && a % b == r
  {
    assert a == b * (a / b) + a % b;
    assert b * (q - a / b) == b * q - b * (a / b);
    ProductAtLeast(q - a / b, b);
  }
}
