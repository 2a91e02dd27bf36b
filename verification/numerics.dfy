/** Integer and real arithmetic as C# performs it on the canvas.

    C#'s `/` on `int` truncates toward zero, an `(int)` cast of a floating
    value truncates toward zero, and `Math.Round(x, 0)` rounds half to even.
    Dafny's own `/` is Euclidean and `.Floor` floors, so each C# operator is
    written out here once and characterised by its contract.
 */
module Numerics {

  /** C#'s `a / b` on `int` for a positive divisor: the quotient truncated
      toward zero, so the remainder has the sign of the dividend. */
  function TruncDiv(a: int, b: int): (q: int)
    requires b > 0
    ensures a >= 0 ==> 0 <= a - q * b < b
    ensures a < 0 ==> -b < a - q * b <= 0
  {
    if a >= 0 then a / b else -((-a) / b)
  }

  /** An `(int)` cast of a floating value: truncation toward zero. */
  function Trunc(x: real): (n: int)
    ensures x >= 0.0 ==> n as real <= x < n as real + 1.0
    ensures x < 0.0 ==> n as real - 1.0 < x <= n as real
  {
    if x >= 0.0 then x.Floor else -((-x).Floor)
  }

  /** `Math.Round(x, 0)`: nearest integer, ties to the even neighbour. */
  function RoundHalfEven(x: real): (n: int)
    ensures -0.5 <= n as real - x <= 0.5
    ensures (n as real - x == 0.5 || x - n as real == 0.5) ==> n % 2 == 0
  {
    var f := x.Floor;
    var frac := x - f as real;
    if frac < 0.5 then f
    else if frac > 0.5 then f + 1
    else if f % 2 == 0 then f else f + 1
  }

  /** An integer scaled by a zoom factor. Kept as a named function so that
      the solver treats equal scalings as equal terms. */
  function Scale(n: int, zoom: real): real {
    n as real * zoom
  }

  /** An integer divided by a zoom factor. */
  function Unscale(n: int, zoom: real): real
    requires zoom != 0.0
  {
    n as real / zoom
  }

  /** Truncation never moves a value away from zero by more than it is. */
  lemma {:induction false} TruncTowardZero(x: real)
    ensures x >= 0.0 ==> 0 <= Trunc(x)
    ensures x <= 0.0 ==> Trunc(x) <= 0
    ensures -1.0 < Trunc(x) as real - x < 1.0
  {
  }

  /** Truncation is the identity on integers. */
  lemma {:induction false} TruncOfInt(n: int)
    ensures Trunc(n as real) == n
  {
  }

  /** Truncation is monotone, so it keeps any ordering of its arguments. */
  lemma {:induction false} TruncMonotone(x: real, y: real)
    requires x <= y
    ensures Trunc(x) <= Trunc(y)
  {
    if x >= 0.0 || y < 0.0 {
    } else {
      TruncTowardZero(x);
      TruncTowardZero(y);
    }
  }

  /** Rounding is the identity on integers. */
  lemma {:induction false} RoundOfInt(n: int)
    ensures RoundHalfEven(n as real) == n
  {
  }

  /** A value within half a unit of an integer (exclusive) rounds to it. */
  lemma {:induction false} RoundNear(x: real, n: int)
    requires -0.5 < x - n as real < 0.5
    ensures RoundHalfEven(x) == n
  {
  }

  /** A value strictly within one unit of an integer rounds to it or to a
      neighbour. */
  lemma {:induction false} RoundWithinOne(x: real, n: int)
    requires -1.0 < x - n as real < 1.0
    ensures n - 1 <= RoundHalfEven(x) <= n + 1
  {
  }

  /** Scaling a non-negative integer is monotone in the factor. */
  lemma {:induction false} ScaleMonotone(n: int, a: real, b: real)
    requires n >= 0 && a <= b
    ensures Scale(n, a) <= Scale(n, b)
  {
    assert n as real * a <= n as real * b;
  }

  /** `i / d` for `0 <= i <= d` is a fraction between 0 and 1, reaching 1
      only at `i == d`, and it grows with `i`. */
  lemma {:induction false} FractionBounds(i: int, j: int, d: int)
    requires 0 <= i <= j <= d && d > 0
    ensures 0.0 <= Unscale(i, d as real) <= Unscale(j, d as real) <= 1.0
    ensures Unscale(d, d as real) == 1.0
  {
    var dd := d as real;
    assert i as real / dd <= j as real / dd;
    assert j as real / dd <= dd / dd;
  }
}
