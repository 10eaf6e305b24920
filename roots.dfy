/** Squares, and the square root the eigenvalue code and the Euclidean norm
    call, taken as a parameter: any function that is the nonnegative square
    root on the nonnegative reals. */
module Roots {
  ghost predicate IsSqrt(sqrt: real -> real) {
    forall x :: 0.0 <= x ==> 0.0 <= sqrt(x) && sqrt(x) * sqrt(x) == x
  }

  /** √(x²) = x for x >= 0. */
  lemma SqrtOfSquare(sqrt: real -> real, x: real)
    requires IsSqrt(sqrt) && 0.0 <= x
    ensures sqrt(x * x) == x
  {
    var r := sqrt(x * x);
    assert 0.0 <= r && r * r == x * x;
    if r < x {
      SquareBelow(r, x);
    } else if x < r {
      SquareBelow(x, r);
    }
  }

  /** Squaring is strictly increasing on the nonnegative reals. */
  lemma SquareBelow(a: real, b: real)
    requires 0.0 <= a < b
    ensures a * a < b * b
  {
    var d := b - a;
    assert b * b == a * a + 2.0 * a * d + d * d;
    assert 0.0 <= a * d;
    assert 0.0 < d * d;
  }

  /** √x >= 1 for x >= 1. */
  lemma SqrtAtLeastOne(sqrt: real -> real, x: real)
    requires IsSqrt(sqrt) && 1.0 <= x
    ensures 1.0 <= sqrt(x)
  {
    var r := sqrt(x);
    assert 0.0 <= r && r * r == x;
    if r < 1.0 {
      SquareBelowOne(r);
    }
  }

  lemma SquareBelowOne(r: real)
    requires 0.0 <= r < 1.0
    ensures r * r < 1.0
  {
    assert r * r <= r * 1.0;
  }

  /** √x = 0 exactly for x = 0. */
  lemma SqrtZero(sqrt: real -> real, x: real)
    requires IsSqrt(sqrt) && 0.0 <= x
    ensures sqrt(x) == 0.0 <==> x == 0.0
  {
    assert sqrt(x) * sqrt(x) == x;
    if x == 0.0 {
      SqrtOfSquare(sqrt, 0.0);
    }
  }

  /** x·y, positive when both factors have the same sign and zero when one
      of them is. */
  function Product(x: real, y: real): (r: real)
    ensures (0.0 < x && 0.0 < y) || (x < 0.0 && y < 0.0) ==> 0.0 < r
    ensures x == 0.0 || y == 0.0 ==> r == 0.0
  {
    x * y
  }

  /** `powi(2)`: x², nonnegative and zero only at zero. */
  function Square(x: real): (r: real)
    ensures 0.0 <= r && (r == 0.0 <==> x == 0.0)
  {
    Product(x, x)
  }
}
