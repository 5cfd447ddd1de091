/** The layout the resize handler of script.js gives the particles: particle i
    goes to row floor(i / dim) and column i % dim of a grid of side
    dim = sqrt(n) centred on the canvas, one unit apart. The side is the
    unrounded square root, so the arithmetic is on reals. */
module Relocation {
  import opened JsMath

  /** `Math.floor(i / dim)`. */
  function GridRow(i: nat, dim: real): (row: int)
    requires dim > 0.0
    ensures 0 <= row
  {
    QuotientNonNegative(i as real, dim);
    (i as real / dim).Floor
  }

  /** `i % dim`: JavaScript's remainder truncates towards zero, which for a
      non-negative i and a positive dim is the floor. */
  function GridCol(i: nat, dim: real): real
    requires dim > 0.0
  {
    i as real - dim * GridRow(i, dim) as real
  }

  /** The rest position of particle i for a canvas centred on (cx, cy). */
  function GridPoint(dim: real, cx: real, cy: real, i: nat): (real, real)
    requires dim > 0.0
  {
    (cx + (GridCol(i, dim) - dim / 2.0) * 1.0, cy + (GridRow(i, dim) as real - dim / 2.0) * 1.0)
  }

  /** The column is a proper remainder: it lies in [0, dim), and the row and
      column put i back together. */
  lemma GridCellBounds(i: nat, dim: real)
    requires dim > 0.0
    ensures 0.0 <= GridCol(i, dim) < dim
    ensures i as real == dim * GridRow(i, dim) as real + GridCol(i, dim)
  {
    var q := i as real / dim;
    var row := GridRow(i, dim);
    assert q * dim == i as real;
    var f := q - row as real;
    assert 0.0 <= f < 1.0;
    assert GridCol(i, dim) == dim * f by {
      assert i as real - dim * row as real == dim * q - dim * row as real;
    }
    ScaledFraction(dim, f);
  }

  /** With dim * dim == n, every particle i < n lands in the dim-by-dim square
      centred on (cx, cy). */
  lemma {:induction false} GridPointInSquare(dim: real, cx: real, cy: real, n: nat, i: nat)
    requires dim > 0.0 && dim * dim == n as real && i < n
    ensures var p := GridPoint(dim, cx, cy, i);
            && cx - dim / 2.0 <= p.0 < cx + dim / 2.0
            && cy - dim / 2.0 <= p.1 < cy + dim / 2.0
  {
    GridCellBounds(i, dim);
    var q := i as real / dim;
    assert q * dim == i as real;
    assert (dim - q) * dim > 0.0 by {
      assert (dim - q) * dim == dim * dim - q * dim;
    }
    PositiveFactor(dim - q, dim);
    assert GridRow(i, dim) as real <= q;
  }

  /** When n is a perfect square d * d, the layout is the integer grid: row
      i / d and column i % d. */
  lemma {:induction false} GridOnPerfectSquare(d: nat, i: nat)
    requires d > 0
    ensures GridRow(i, d as real) == i / d
    ensures GridCol(i, d as real) == (i % d) as real
  {
    var r := i / d;
    assert i == d * r + i % d;
    RealOfProduct(d, r);
    RealOfProduct(d, r + 1);
    FloorUnique(i, d as real, r);
  }

  /** The layout of the resize handler for n > 0 particles, with dim the
      square root of n: every particle lands in the dim-by-dim square centred
      on the canvas centre, and no two land on the same point. */
  lemma {:induction false} ResizeLayout(sqrt: real -> real, n: nat, cx: real, cy: real)
    requires IsSqrt(sqrt) && n > 0
    ensures sqrt(n as real) > 0.0
    ensures var dim := sqrt(n as real);
            forall i :: 0 <= i < n ==>
              var p := GridPoint(dim, cx, cy, i);
              && cx - dim / 2.0 <= p.0 < cx + dim / 2.0
              && cy - dim / 2.0 <= p.1 < cy + dim / 2.0
    ensures var dim := sqrt(n as real);
            forall i, j :: 0 <= i < j < n ==> GridPoint(dim, cx, cy, i) != GridPoint(dim, cx, cy, j)
  {
    SqrtPositive(sqrt, n as real);
    var dim := sqrt(n as real);
    assert dim * dim == n as real;
    forall i | 0 <= i < n
      ensures var p := GridPoint(dim, cx, cy, i);
              && cx - dim / 2.0 <= p.0 < cx + dim / 2.0
              && cy - dim / 2.0 <= p.1 < cy + dim / 2.0
    {
      GridPointInSquare(dim, cx, cy, n, i);
    }
    forall i, j | 0 <= i < j < n
      ensures GridPoint(dim, cx, cy, i) != GridPoint(dim, cx, cy, j)
    {
      GridPointsDistinct(dim, cx, cy, i, j);
    }
  }

  /** No two particles share a rest position. */
  lemma {:induction false} GridPointsDistinct(dim: real, cx: real, cy: real, i: nat, j: nat)
    requires dim > 0.0 && i != j
    ensures GridPoint(dim, cx, cy, i) != GridPoint(dim, cx, cy, j)
  {
    GridCellBounds(i, dim);
    GridCellBounds(j, dim);
  }

  /** Rows fill in order: a later particle never sits on an earlier row. */
  lemma {:induction false} GridRowsAscend(dim: real, i: nat, j: nat)
    requires dim > 0.0 && i <= j
    ensures GridRow(i, dim) <= GridRow(j, dim)
  {
    var qi, qj := i as real / dim, j as real / dim;
    assert qi * dim == i as real && qj * dim == j as real;
    assert (qj - qi) * dim >= 0.0 by {
      assert (qj - qi) * dim == j as real - i as real;
    }
    NonNegativeFactor(qj - qi, dim);
  }

  /** The row is the only integer r with r * dim <= i < (r + 1) * dim. */
  lemma FloorUnique(i: nat, dim: real, r: int)
    requires dim > 0.0
    requires r as real * dim <= i as real < (r + 1) as real * dim
    ensures GridRow(i, dim) == r
  {
    var q := i as real / dim;
    assert q * dim == i as real;
    assert (q - r as real) * dim >= 0.0 by {
      assert (q - r as real) * dim == q * dim - r as real * dim;
    }
    assert ((r + 1) as real - q) * dim > 0.0 by {
      assert ((r + 1) as real - q) * dim == (r + 1) as real * dim - q * dim;
    }
    NonNegativeFactor(q - r as real, dim);
    PositiveFactor((r + 1) as real - q, dim);
  }

  lemma RealOfProduct(a: nat, b: int)
    ensures a as real * b as real == (a * b) as real
  {
  }

  lemma QuotientNonNegative(a: real, b: real)
    requires 0.0 <= a && 0.0 < b
    ensures 0.0 <= a / b
  {
    assert (a / b) * b == a;
    NonNegativeFactor(a / b, b);
  }

  /** A factor whose product with a positive number is positive is positive. */
  lemma PositiveFactor(a: real, b: real)
    requires 0.0 < b && a * b > 0.0
    ensures 0.0 < a
  {
  }

  lemma NonNegativeFactor(a: real, b: real)
    requires 0.0 < b && a * b >= 0.0
    ensures 0.0 <= a
  {
  }

  /** A fraction in [0, 1) of a positive number lies in [0, that number). */
  lemma ScaledFraction(dim: real, f: real)
    requires 0.0 < dim && 0.0 <= f < 1.0
    ensures 0.0 <= dim * f < dim
  {
    assert dim - dim * f == dim * (1.0 - f);
    assert dim * (1.0 - f) > 0.0;
  }
}
