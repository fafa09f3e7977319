/** The distance of `HistoryWindowBuilder` is a metric, which is all that its laws ask of it. */
module Metric {
  import opened Decimal
  import opened HistoryWindow

  /** The distance of the source: the non-negative root of the sum of squares. */
  ghost predicate IsEuclidean(dist: Distance) {
    forall p, q :: dist(p, q) >= 0.0 && dist(p, q) * dist(p, q) == SquareSum(q.u - p.u, q.v - p.v)
  }

  function SquareSum(x: real, y: real): real {
    x * x + y * y
  }

  /** It is a metric. */
  lemma EuclideanIsMetric(dist: Distance)
    requires IsEuclidean(dist)
    ensures IsMetric(dist)
  {
    forall p, q ensures dist(p, q) >= 0.0 { RootOfSquares(dist, p, q); }
    forall p ensures dist(p, p) == 0.0 { ZeroToItself(dist, p); }
    forall p, q, r ensures dist(p, r) <= dist(p, q) + dist(q, r) { TriangleOf(dist, p, q, r); }
    hide IsEuclidean;
  }

  lemma RootOfSquares(dist: Distance, p: Point, q: Point)
    requires IsEuclidean(dist)
    ensures dist(p, q) >= 0.0 && dist(p, q) * dist(p, q) == SquareSum(q.u - p.u, q.v - p.v)
  {
  }

  lemma ZeroToItself(dist: Distance, p: Point)
    requires IsEuclidean(dist)
    ensures dist(p, p) == 0.0
  {
    RootOfSquares(dist, p, p);
    hide IsEuclidean;
    RootIsMonotone(dist(p, p), 0.0);
  }

  lemma TriangleOf(dist: Distance, p: Point, q: Point, r: Point)
    requires IsEuclidean(dist)
    ensures dist(p, r) <= dist(p, q) + dist(q, r)
  {
    RootOfSquares(dist, p, q);
    RootOfSquares(dist, q, r);
    RootOfSquares(dist, p, r);
    hide IsEuclidean, SquareSum;
    var (x1, y1, x2, y2) := (q.u - p.u, q.v - p.v, r.u - q.u, r.v - q.v);
    assert r.u - p.u == x1 + x2 && r.v - p.v == y1 + y2;
    Triangle(dist(p, q), dist(q, r), dist(p, r), x1, y1, x2, y2);
  }

  lemma RootIsMonotone(a: real, b: real)
    requires a >= 0.0 && b >= 0.0 && a * a <= b * b
    ensures a <= b
  {
    assert (a - b) * (a + b) == a * a - b * b;
    if a > b { PositiveProduct(a - b, a + b); }
  }

  lemma Triangle(a: real, b: real, c: real, x1: real, y1: real, x2: real, y2: real)
    requires a >= 0.0 && b >= 0.0 && c >= 0.0
    requires a * a == SquareSum(x1, y1) && b * b == SquareSum(x2, y2)
    requires c * c == SquareSum(x1 + x2, y1 + y2)
    ensures c <= a + b
  {
    var s := x1 * x2 + y1 * y2;
    NonNegativeProduct(a, b);
    CauchySchwarz(a, b, x1, y1, x2, y2);
    SumOfSquares(x1, y1, x2, y2);
    assert (a + b) * (a + b) == a * a + b * b + 2.0 * (a * b);
    hide SquareSum;
    RootIsMonotone(c, a + b);
  }

  lemma SumOfSquares(x1: real, y1: real, x2: real, y2: real)
    ensures SquareSum(x1 + x2, y1 + y2) == SquareSum(x1, y1) + SquareSum(x2, y2) + 2.0 * (x1 * x2 + y1 * y2)
  {
    assert (x1 + x2) * (x1 + x2) == x1 * x1 + x2 * x2 + 2.0 * (x1 * x2);
    assert (y1 + y2) * (y1 + y2) == y1 * y1 + y2 * y2 + 2.0 * (y1 * y2);
  }

  lemma CauchySchwarz(a: real, b: real, x1: real, y1: real, x2: real, y2: real)
    requires a >= 0.0 && b >= 0.0 && a * a == SquareSum(x1, y1) && b * b == SquareSum(x2, y2)
    ensures x1 * x2 + y1 * y2 <= a * b
  {
    var (s, d) := (x1 * x2 + y1 * y2, x1 * y2 - y1 * x2);
    Lagrange(x1, y1, x2, y2);
    assert (a * b) * (a * b) == (a * a) * (b * b);
    NonNegativeProduct(a, b);
    hide SquareSum;
    if s > 0.0 { RootIsMonotone(s, a * b); }
  }

  lemma Lagrange(x1: real, y1: real, x2: real, y2: real)
    ensures var s := x1 * x2 + y1 * y2;
      s * s <= SquareSum(x1, y1) * SquareSum(x2, y2)
  {
    var (s, d) := (x1 * x2 + y1 * y2, x1 * y2 - y1 * x2);
    assert d * d >= 0.0;
    assert s * s + d * d == SquareSum(x1, y1) * SquareSum(x2, y2);
  }
}
