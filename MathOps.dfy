/**
 * The .NET floating-point leaf operations the colour conversions use, stated
 * over exact reals: Math.Floor, Math.Ceiling, Math.Round (midpoint to even),
 * the C# remainder operator on doubles, and the unchecked conversion of a
 * double to a byte.  IEEE-754 rounding of the intermediate results is not
 * modelled.
 */
module MathOps {

  /** An unsigned 8-bit channel value. */
  type byte = x: int | 0 <= x < 256

  /** True when x has no fractional part. */
  predicate IsIntegral(x: real) {
    x == x.Floor as real
  }

  /** Math.Floor: the greatest integer not above x. */
  function Floor(x: real): (r: int)
    ensures r as real <= x < r as real + 1.0
  {
    x.Floor
  }

  /** Math.Ceiling: the least integer not below x. */
  function Ceiling(x: real): (r: int)
    ensures r as real - 1.0 < x <= r as real
  {
    -((-x).Floor)
  }

  /** Truncation toward zero, as a conversion of a double to an integer type performs it. */
  function Trunc(x: real): (r: int)
    ensures 0.0 <= x ==> 0 <= r && r as real <= x < r as real + 1.0
    ensures x < 0.0 ==> r <= 0 && r as real - 1.0 < x <= r as real
  {
    if x >= 0.0 then x.Floor else -((-x).Floor)
  }

  /** The C# remainder x % m on doubles for a positive divisor: the result takes the sign of x. */
  function FMod(x: real, m: real): (r: real)
    requires m > 0.0
    ensures 0.0 <= x ==> 0.0 <= r < m
    ensures x <= 0.0 ==> -m < r <= 0.0
    ensures -m < x < m ==> r == x
    ensures m <= x < 2.0 * m ==> r == x - m
    ensures IsIntegral((x - r) / m)
  {
    var k := Trunc(x / m);
    FModQuotient(x, m, k);
    x - m * k as real
  }

  /** The facts about x - m * Trunc(x / m) that FMod states. */
  lemma FModQuotient(x: real, m: real, k: int)
    requires m > 0.0 && k == Trunc(x / m)
    ensures 0.0 <= x ==> 0.0 <= x - m * k as real < m
    ensures x <= 0.0 ==> -m < x - m * k as real <= 0.0
    ensures -m < x < m ==> k == 0
    ensures m <= x < 2.0 * m ==> k == 1
    ensures (x - (x - m * k as real)) / m == k as real
  {
    var kr := k as real;
    if 0.0 <= x {
      QuotientSign(x, m);
      BelowQuotient(x, m, kr);
      AboveQuotient(x, m, kr + 1.0);
    } else {
      QuotientSign(x, m);
      BelowQuotient(x, m, kr - 1.0);
      AboveQuotient(x, m, kr);
    }
    if -m < x < m {
      BelowQuotient(x, m, -1.0);
      AboveQuotient(x, m, 1.0);
    }
    if m <= x < 2.0 * m {
      BelowQuotient(x, m, 1.0);
      AboveQuotient(x, m, 2.0);
    }
  }

  /** The quotient by a positive divisor has the sign of the dividend. */
  lemma QuotientSign(x: real, m: real)
    requires m > 0.0
    ensures 0.0 <= x <==> 0.0 <= x / m
    ensures 0.0 < x <==> 0.0 < x / m
  {
  }

  /** a lies below the quotient x / m exactly when m * a lies below x. */
  lemma BelowQuotient(x: real, m: real, a: real)
    requires m > 0.0
    ensures a <= x / m <==> m * a <= x
    ensures a < x / m <==> m * a < x
  {
  }

  /** a lies above the quotient x / m exactly when m * a lies above x. */
  lemma AboveQuotient(x: real, m: real, a: real)
    requires m > 0.0
    ensures x / m <= a <==> x <= m * a
    ensures x / m < a <==> x < m * a
  {
  }

  /** A product of two non-negative reals is non-negative. */
  lemma MulNonNegative(a: real, b: real)
    requires 0.0 <= a && 0.0 <= b
    ensures 0.0 <= a * b
  {
  }

  /** Math.Round with the default midpoint rule: a tie goes to the even neighbour. */
  function RoundHalfEven(x: real): (r: int)
    ensures -0.5 <= x - r as real <= 0.5
    ensures (x - r as real == 0.5 || x - r as real == -0.5) ==> r % 2 == 0
  {
    var f := x.Floor;
    var d := x - f as real;
    if d < 0.5 then f
    else if d > 0.5 then f + 1
    else if f % 2 == 0 then f
    else f + 1
  }

  /**
   * The two properties RoundHalfEven promises pick out one integer: any n
   * within one half of x that is even whenever it is exactly one half away
   * is the rounded value.
   */
  lemma RoundHalfEvenUnique(x: real, n: int)
    requires -0.5 <= x - n as real <= 0.5
    requires (x - n as real == 0.5 || x - n as real == -0.5) ==> n % 2 == 0
    ensures n == RoundHalfEven(x)
  {
  }

  /** Rounding leaves an integer unchanged. */
  lemma RoundHalfEvenIntegral(n: int)
    ensures RoundHalfEven(n as real) == n
  {
    RoundHalfEvenUnique(n as real, n);
  }

  /**
   * The C# conversion (byte)x of a double: truncation toward zero.  It is
   * only specified while the truncated value fits in a byte, which is what
   * the requires clause demands.
   */
  function ByteCast(x: real): (r: byte)
    requires -1.0 < x < 256.0
    ensures 0.0 <= x ==> r as real <= x < r as real + 1.0
    ensures x < 0.0 ==> r == 0
  {
    Trunc(x)
  }

  /** Math.Max on doubles. */
  function MaxReal(a: real, b: real): (r: real)
    ensures r >= a && r >= b && (r == a || r == b)
  {
    if a >= b then a else b
  }

  /** Math.Max on bytes. */
  function MaxByte(a: byte, b: byte): (r: byte)
    ensures r >= a && r >= b && (r == a || r == b)
  {
    if a >= b then a else b
  }

  /** Math.Min on bytes. */
  function MinByte(a: byte, b: byte): (r: byte)
    ensures r <= a && r <= b && (r == a || r == b)
  {
    if a <= b then a else b
  }
}
