/**
 * C integer division and remainder. C truncates the quotient toward zero, so
 * the remainder takes the sign of the dividend; Dafny's `/` and `%` are
 * Euclidean. The calendar code of the module divides negative operands, so the
 * model spells the C operators out.
 */
module CArith {

  /** `a / b` in C: the quotient truncated toward zero. */
  function CDiv(a: int, b: int): int
    requires b != 0
  {
    if a >= 0 then a / b
    else if b > 0 then -((-a) / b)
    else (-a) / (-b)
  }

  /** `a % b` in C: the remainder that goes with `CDiv`. */
  function CMod(a: int, b: int): int
    requires b != 0
  {
    a - b * CDiv(a, b)
  }

  /** C's quotient and remainder reassemble the dividend; the remainder is
      smaller than the divisor and never of the opposite sign to the dividend. */
  lemma CDivModSpec(a: int, b: int)
    requires b > 0
    ensures a == b * CDiv(a, b) + CMod(a, b)
    ensures -b < CMod(a, b) < b
    ensures a >= 0 ==> 0 <= CMod(a, b) && CDiv(a, b) == a / b && CMod(a, b) == a % b
    ensures a < 0 ==> CMod(a, b) <= 0
  {
  }

  /** Euclidean division is determined by its defining equation. */
  lemma DivModUnique(a: int, b: int, q: int, r: int)
    requires b > 0 && a == b * q + r && 0 <= r < b
    ensures a / b == q && a % b == r
  {
    var q', r' := a / b, a % b;
    assert b * (q - q') == r' - r;
    if q - q' >= 1 {
      assert false;
    } else if q - q' <= -1 {
      assert false;
    }
  }

  /** For a non-positive dividend the C quotient is the Euclidean one, rounded up
      when the division is inexact. */
  lemma CDivNegative(a: int, b: int)
    requires a <= 0 && b > 0
    ensures CDiv(a, b) == if a % b == 0 then a / b else a / b + 1
    ensures CMod(a, b) == if a % b == 0 then 0 else a % b - b
  {
    var q, r := (-a) / b, (-a) % b;
    assert -a == b * q + r;
    if r == 0 {
      assert a == b * (-q) + 0;
      DivModUnique(a, b, -q, 0);
    } else {
      assert a == b * (-q - 1) + (b - r);
      DivModUnique(a, b, -q - 1, b - r);
    }
  }

  /** A zero remainder means divisibility under both conventions. */
  lemma CModZero(a: int, b: int)
    requires b > 0
    ensures CMod(a, b) == 0 <==> a % b == 0
  {
    if a < 0 { CDivNegative(a, b); }
  }
}
