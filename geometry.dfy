/** Points, distances and the integer conversion used by the k-means engine
    (the `Point` struct and `get_euclidean_distance` of kmeans.c). */
module Geometry {

  /** A 2-D point. The source stores `double` coordinates; this model uses
      integers (see README). */
  datatype Point = Point(x: int, y: int)

  lemma SquareNonNegative(d: int)
    ensures d * d >= 0
    ensures d * d == 0 <==> d == 0
  {
    if d < 0 {
      assert d * d == (-d) * (-d);
    }
  }

  /** Squared Euclidean distance. The source returns
      `sqrt(pow(dx, 2) + pow(dy, 2))`; since `sqrt` is monotone the
      comparisons made on it are the same as on the squared value. */
  function Dist2(a: Point, b: Point): (d: int)
    ensures d >= 0
  {
    SquareNonNegative(a.x - b.x);
    SquareNonNegative(a.y - b.y);
    (a.x - b.x) * (a.x - b.x) + (a.y - b.y) * (a.y - b.y)
  }

  /** The running minimum of the nearest-centroid search: it starts at
      `INFINITY` and then holds a finite distance. */
  datatype Distance = Infinity | Finite(d: int)

  /** `dist < min_distance`, where every finite value is below `INFINITY`. */
  predicate Below(d: int, m: Distance)
  {
    m.Infinity? || d < m.d
  }

  /** The C conversion of the quotient `a / b` (a `double`) to `int`: it
      truncates toward zero, which differs from Dafny's Euclidean `/` when
      `a` is negative. */
  function TruncDiv(a: int, b: int): (q: int)
    requires b > 0
    ensures 0 <= a ==> 0 <= q && q * b <= a < q * b + b
    ensures a < 0 ==> q <= 0 && q * b - b < a <= q * b
  {
    if a >= 0 then a / b else -((-a) / b)
  }

  /** Multiplying by a positive number keeps the order. */
  lemma MulMonotone(a: int, b: int, n: int)
    requires a <= b && n > 0
    ensures a * n <= b * n
  {
    assert (b - a) * n >= 0;
    assert b * n - a * n == (b - a) * n;
  }

  /** A truncated quotient never leaves the interval its dividend's bounds
      describe: `n * lo <= a <= n * hi` gives `lo <= a / n <= hi`. */
  lemma TruncDivWithin(a: int, n: int, lo: int, hi: int)
    requires n > 0
    requires lo * n <= a <= hi * n
    ensures lo <= TruncDiv(a, n) <= hi
  {
    var q := TruncDiv(a, n);
    if q < lo {
      assert (q + 1) * n == q * n + n;
      MulMonotone(q + 1, lo, n);
      assert false;
    }
    if q > hi {
      assert (hi + 1) * n == hi * n + n;
      MulMonotone(hi + 1, q, n);
      assert false;
    }
  }

  /** Division of `n * v` by `n` is exact. */
  lemma TruncDivExact(v: int, n: int)
    requires n > 0
    ensures TruncDiv(n * v, n) == v
  {
    assert v * n == n * v;
    TruncDivWithin(n * v, n, v, v);
  }
}
