/** The host's `Math.sqrt`, `Math.exp`, `Math.atan2`, `Math.cos` and
    `Math.sin`, which the model receives as values instead of computing, and
    the facts about them that the proofs rely on. */
module JsMath {

  datatype Math = Math(sqrt: real -> real, exp: real -> real, atan2: (real, real) -> real,
                       cos: real -> real, sin: real -> real)

  /** `sqrt` gives the non-negative square root of every non-negative number. */
  ghost predicate IsSqrt(sqrt: real -> real) {
    forall x: real :: 0.0 <= x ==> 0.0 <= sqrt(x) && sqrt(x) * sqrt(x) == x
  }

  /** `exp` of a non-positive number lies in (0, 1]. */
  ghost predicate DecaysWithin(exp: real -> real) {
    forall x: real :: x <= 0.0 ==> 0.0 < exp(x) <= 1.0
  }

  /** The unit vector at angle `atan2(dy, dx)` points along (dx, dy): its
      dot product with (dx, dy) is the length of (dx, dy). */
  ghost predicate PolarConsistent(m: Math) {
    forall dx: real, dy: real ::
      m.cos(m.atan2(dy, dx)) * dx + m.sin(m.atan2(dy, dx)) * dy == m.sqrt(dx * dx + dy * dy)
  }

  /** A non-negative number whose square is x is the square root of x. */
  lemma SqrtUnique(sqrt: real -> real, x: real, r: real)
    requires IsSqrt(sqrt) && 0.0 <= r && r * r == x
    ensures sqrt(x) == r
  {
    var s := sqrt(x);
    SquareGrows(s, r);
    SquareGrows(r, s);
  }

  lemma SquareGrows(a: real, b: real)
    requires 0.0 <= a && 0.0 <= b
    ensures a < b ==> a * a < b * b
  {
    if a < b {
      var d := b - a;
      assert b * b == a * a + d * (a + b);
      assert d * (a + b) > 0.0;
    }
  }

  /** The square root of a positive number is positive. */
  lemma SqrtPositive(sqrt: real -> real, x: real)
    requires IsSqrt(sqrt) && 0.0 < x
    ensures 0.0 < sqrt(x)
  {
    assert sqrt(x) * sqrt(x) == x;
  }
}
