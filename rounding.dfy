/** Exact models of the C library operations the renderer uses on numbers:
    `round` applied to an exact quotient, and the truncating quotient `/` and
    remainder `%`. */
module Rounding {

  /** C's `round(p / q)` on the exact rational p / q: the nearest integer,
      halfway cases rounded away from zero. */
  function Round(p: int, q: int): (r: int)
    requires q > 0
    ensures p >= 0 ==> r >= 0 && q * (2 * r - 1) <= 2 * p < q * (2 * r + 1)
    ensures p < 0 ==> r <= 0 && q * (2 * r - 1) < 2 * p <= q * (2 * r + 1)
  {
    if p >= 0 then RoundUp(p, q) else 0 - RoundUp(-p, q)
  }

  /** floor(p / q + 1/2) for non-negative p. */
  function RoundUp(p: nat, q: int): (r: nat)
    requires q > 0
    ensures q * (2 * r - 1) <= 2 * p < q * (2 * r + 1)
  {
    var r := (2 * p + q) / (2 * q);
    DivBounds(2 * p + q, 2 * q);
    r
  }

  lemma DivBounds(a: nat, b: int)
    requires b > 0
    ensures b * (a / b) <= a < b * (a / b) + b
  {
  }

  /** C's `a / b` for b > 0: the quotient truncated toward zero. */
  function TruncDiv(a: int, b: int): (d: int)
    requires b > 0
    ensures a >= 0 ==> 0 <= d && b * d <= a < b * d + b
    ensures a <= 0 ==> d <= 0 && b * d - b < a <= b * d
  {
    if a >= 0 then a / b else -((-a) / b)
  }

  /** C's `a % b` for b > 0: the remainder that goes with the truncated
      quotient, so it takes the sign of a (Dafny's `%` is Euclidean instead). */
  function TruncRem(a: int, b: int): (r: int)
    requires b > 0
    ensures a == b * TruncDiv(a, b) + r
    ensures -b < r < b
    ensures a >= 0 ==> r >= 0
    ensures a <= 0 ==> r <= 0
  {
    if a >= 0 then a % b else -((-a) % b)
  }
}
