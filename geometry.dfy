/** Plane geometry over exact reals: the `QPointF` arithmetic the editor relies on. */
module Geometry {

  datatype Point = Point(x: real, y: real)

  /** The scene origin; a `QPointF` there is a null point and counts as false. */
  const Origin: Point := Point(0.0, 0.0)

  function Add(p: Point, q: Point): Point
  {
    Point(p.x + q.x, p.y + q.y)
  }

  function Sub(p: Point, q: Point): Point
  {
    Point(p.x - q.x, p.y - q.y)
  }

  function Scale(k: real, p: Point): Point
  {
    Point(k * p.x, k * p.y)
  }

  function Dot(p: Point, q: Point): real
  {
    p.x * q.x + p.y * q.y
  }

  /** The z component of the cross product of two plane vectors. */
  function Cross(p: Point, q: Point): real
  {
    p.x * q.y - p.y * q.x
  }

  /** Squared Euclidean length. */
  function Norm2(p: Point): real
  {
    p.x * p.x + p.y * p.y
  }

  /** Midpoint of a segment, as `(a + b) / 2` coordinate-wise. */
  function Mid(a: Point, b: Point): Point
  {
    Point((a.x + b.x) / 2.0, (a.y + b.y) / 2.0)
  }

  /** The vector turned a quarter turn counter-clockwise: `(-y, x)`. */
  function Perp(v: Point): Point
  {
    Point(-v.y, v.x)
  }

  function Abs(r: real): real
  {
    if r < 0.0 then -r else r
  }

  function Min(a: real, b: real): real
  {
    if a <= b then a else b
  }

  function Max(a: real, b: real): real
  {
    if a >= b then a else b
  }

  /** `r` is the value `math.sqrt(x)` stands for: the non-negative square root. */
  predicate IsSqrtOf(r: real, x: real)
  {
    r >= 0.0 && r * r == x
  }

  lemma Norm2NonNegative(p: Point)
    ensures Norm2(p) >= 0.0
  {
  }

  lemma PerpIsOrthogonal(v: Point)
    ensures Dot(Perp(v), v) == 0.0 && Norm2(Perp(v)) == Norm2(v)
  {
  }

  /** Square roots preserve and reflect order, so comparing lengths is comparing squares. */
  lemma SqrtMonotone(a: real, x: real, b: real, y: real)
    requires IsSqrtOf(a, x) && IsSqrtOf(b, y)
    ensures a < b <==> x < y
    ensures a == b <==> x == y
  {
    if a < b {
      SquareGrows(a, b);
    } else if b < a {
      SquareGrows(b, a);
    }
  }

  lemma SquareGrows(a: real, b: real)
    requires 0.0 <= a < b
    ensures a * a < b * b
  {
    var d := b - a;
    assert b * b == a * a + 2.0 * a * d + d * d;
    assert d * d > 0.0;
    assert a * d >= 0.0;
  }

  /** Python's `round` on a float: the nearest integer, ties to the even one. */
  function RoundHalfEven(r: real): (n: int)
    ensures Abs(r - n as real) <= 0.5
    ensures Abs(r - n as real) == 0.5 ==> n % 2 == 0
  {
    var f := r.Floor;
    var frac := r - f as real;
    if frac < 0.5 then f
    else if frac > 0.5 then f + 1
    else if f % 2 == 0 then f
    else f + 1
  }

  /** Rounding an integer gives it back. */
  lemma RoundInteger(n: int)
    ensures RoundHalfEven(n as real) == n
  {
  }

  /** No integer is strictly closer to `r` than `RoundHalfEven(r)`. */
  lemma RoundIsNearest(r: real, m: int)
    ensures Abs(r - RoundHalfEven(r) as real) <= Abs(r - m as real)
  {
    var n := RoundHalfEven(r);
    if m < n {
      assert m as real <= n as real - 1.0;
    } else if m > n {
      assert m as real >= n as real + 1.0;
    }
  }
}

/** Grid snapping: `round(v / g) * g` on each coordinate, as the scene and the nodes do it. */
module Grid {
  import opened Geometry

  /** One coordinate snapped to the nearest multiple of the grid size. */
  function SnapCoord(v: real, g: int): (r: int)
    requires g > 0
    ensures r % g == 0
    ensures Abs(v - r as real) <= g as real / 2.0
  {
    var n := RoundHalfEven(v / g as real);
    ScaleDistance(v, n, g);
    MultipleMod(n, g);
    n * g
  }

  lemma MultipleMod(n: int, g: int)
    requires g > 0
    ensures (n * g) % g == 0
  {
    var m := n * g;
    var q, r := m / g, m % g;
    assert m == g * q + r && 0 <= r < g;
    var e := n - q;
    assert g * e == r;
  }

  lemma ScaleDistance(v: real, n: int, g: int)
    requires g > 0 && Abs(v / g as real - n as real) <= 0.5
    ensures Abs(v - (n * g) as real) <= g as real / 2.0
  {
    var G := g as real;
    var d := v / G - n as real;
    assert v == (v / G) * G;
    assert (n * g) as real == n as real * G;
    assert v - (n * g) as real == d * G;
    if d >= 0.0 {
      MulNonNegative(0.5 - d, G);
    } else {
      MulNonNegative(0.5 + d, G);
    }
  }

  lemma MulNonNegative(a: real, b: real)
    requires a >= 0.0 && b >= 0.0
    ensures a * b >= 0.0
  {
  }

  function SnapToGrid(p: Point, g: int): (q: Point)
    requires g > 0
  {
    Point(SnapCoord(p.x, g) as real, SnapCoord(p.y, g) as real)
  }

  /** Snapping lands on a grid point at most half a cell away in each direction. */
  lemma SnapIsNearGridPoint(p: Point, g: int)
    requires g > 0
    ensures SnapToGrid(p, g).x.Floor % g == 0 && SnapToGrid(p, g).y.Floor % g == 0
    ensures SnapToGrid(p, g).x == SnapToGrid(p, g).x.Floor as real
    ensures SnapToGrid(p, g).y == SnapToGrid(p, g).y.Floor as real
    ensures Abs(p.x - SnapToGrid(p, g).x) <= g as real / 2.0
    ensures Abs(p.y - SnapToGrid(p, g).y) <= g as real / 2.0
  {
  }

  /** A grid point snaps to itself, so snapping twice is snapping once. */
  lemma SnapIdempotent(p: Point, g: int)
    requires g > 0
    ensures SnapToGrid(SnapToGrid(p, g), g) == SnapToGrid(p, g)
  {
    SnapMultiple(SnapCoord(p.x, g), g);
    SnapMultiple(SnapCoord(p.y, g), g);
  }

  lemma SnapMultiple(m: int, g: int)
    requires g > 0 && m % g == 0
    ensures SnapCoord(m as real, g) == m
  {
    var k := m / g;
    assert m == k * g;
    assert (m as real) / (g as real) == k as real;
    RoundInteger(k);
  }
}
