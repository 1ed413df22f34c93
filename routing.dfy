/**
 * Arrow routing geometry shared by both arrow implementations: segment
 * intersection, the nearest boundary hit along a ray, Bezier control points,
 * curve offsets of a group of arrows, and self-loop placement.
 *
 * `math.sqrt` is a parameter `sqrt` of which only `IsSqrt` is known.
 */
module Routing {
  import opened Wrappers
  import opened Geometry
  import Grid

  /** A segment of a node's flattened boundary polygon. */
  datatype Segment = Segment(a: Point, b: Point)

  datatype Side = Top | Bottom | Left | Right

  /** How many other objects lie in the area checked beside each side of a node. */
  datatype SideCounts = SideCounts(top: nat, bottom: nat, left: nat, right: nat)

  /** Where a self-loop leaves and re-enters its node, and the circle it is drawn on. */
  datatype Loop = Loop(start: Point, end: Point, center: Point, radius: real)

  /** `sqrt` returns the non-negative square root of every non-negative number. */
  ghost predicate IsSqrt(sqrt: real -> real)
  {
    forall x :: 0.0 <= x ==> IsSqrtOf(sqrt(x), x)
  }

  lemma LengthPositive(v: Point, sqrt: real -> real)
    requires IsSqrt(sqrt)
    ensures sqrt(Norm2(v)) >= 0.0
    ensures sqrt(Norm2(v)) == 0.0 <==> v == Point(0.0, 0.0)
  {
    var r := sqrt(Norm2(v));
    Norm2NonNegative(v);
    assert IsSqrtOf(r, Norm2(v));
    if v != Point(0.0, 0.0) {
      Norm2Positive(v);
    } else if r != 0.0 {
      calc {
        0.0;
        Norm2(v);
        r * r;
      > { SquarePositive(r); }
        0.0 * r;
      }
    }
  }

  /** Only the zero vector has squared length zero. */
  lemma Norm2Positive(v: Point)
    requires v != Point(0.0, 0.0)
    ensures Norm2(v) > 0.0
  {
    if v.x != 0.0 {
      calc {
        Norm2(v);
        v.x * v.x + v.y * v.y;
      >= { SquareNonNegative(v.y); }
        v.x * v.x + 0.0 * v.y;
      > { SquarePositive(v.x); }
        0.0 * v.x + 0.0 * v.y;
      }
    } else {
      calc {
        Norm2(v);
        v.x * v.x + v.y * v.y;
      >= { SquareNonNegative(v.x); }
        0.0 * v.x + v.y * v.y;
      > { SquarePositive(v.y); }
        0.0 * v.x + 0.0 * v.y;
      }
    }
  }

  // The right-hand sides keep a product so that the facts chain with the
  // products of the calculations above.
  lemma SquareNonNegative(a: real)
    ensures a * a >= 0.0 * a
  {
  }

  lemma SquarePositive(a: real)
    requires a != 0.0
    ensures a * a > 0.0 * a
  {
  }

  // ---------------------------------------------------------------- intersection

  /** The denominator of the two-line intersection formula; zero for parallel lines. */
  function Denominator(p1: Point, p2: Point, p3: Point, p4: Point): real
  {
    (p1.x - p2.x) * (p3.y - p4.y) - (p1.y - p2.y) * (p3.x - p4.x)
  }

  /**
   * `_line_segment_intersection`: where line p1p2 crosses segment p3p4. The
   * line is unbounded; only the segment is bounded. Nearly parallel lines
   * (|denominator| < 1e-10) give nothing.
   */
  function LineSegmentIntersection(p1: Point, p2: Point, p3: Point, p4: Point): (r: Option<Point>)
    ensures Abs(Denominator(p1, p2, p3, p4)) < 0.0000000001 ==> r.None?
    ensures r.Some? ==> Cross(Sub(r.value, p1), Sub(p2, p1)) == 0.0
    ensures r.Some? ==> exists u :: 0.0 <= u <= 1.0 && r.value == Add(p3, Scale(u, Sub(p4, p3)))
  {
    var den := Denominator(p1, p2, p3, p4);
    if Abs(den) < 0.0000000001 then None
    else
      var t := LineParameter(p1, p2, p3, p4);
      var u := SegmentParameter(p1, p2, p3, p4);
      if 0.0 <= u <= 1.0 then
        OnLine(p1, p2, t);
        MeetsSegment(p1, p2, p3, p4, den, t, u);
        Some(PointAt(p1, p2, t))
      else None
  }

  /** Where the line p1p2 meets line p3p4, as a multiple of p2 - p1 from p1. */
  function LineParameter(p1: Point, p2: Point, p3: Point, p4: Point): real
    requires Denominator(p1, p2, p3, p4) != 0.0
  {
    ((p1.x - p3.x) * (p3.y - p4.y) - (p1.y - p3.y) * (p3.x - p4.x)) / Denominator(p1, p2, p3, p4)
  }

  /** Where the line p1p2 meets line p3p4, as a multiple of p4 - p3 from p3. */
  function SegmentParameter(p1: Point, p2: Point, p3: Point, p4: Point): real
    requires Denominator(p1, p2, p3, p4) != 0.0
  {
    -((p1.x - p2.x) * (p1.y - p3.y) - (p1.y - p2.y) * (p1.x - p3.x)) / Denominator(p1, p2, p3, p4)
  }

  /** The point `t` of the way along the line from p1 to p2. */
  function PointAt(p1: Point, p2: Point, t: real): Point
  {
    Point(p1.x + t * (p2.x - p1.x), p1.y + t * (p2.y - p1.y))
  }

  lemma OnLine(p1: Point, p2: Point, t: real)
    ensures Cross(Sub(PointAt(p1, p2, t), p1), Sub(p2, p1)) == 0.0
  {
    var dx, dy := p2.x - p1.x, p2.y - p1.y;
    assert Sub(Point(p1.x + t * dx, p1.y + t * dy), p1) == Point(t * dx, t * dy);
    assert (t * dx) * dy == (t * dy) * dx;
  }

  /** The point the line parameter t names is also the point the segment parameter u names. */
  lemma MeetsSegment(p1: Point, p2: Point, p3: Point, p4: Point, den: real, t: real, u: real)
    requires den == Denominator(p1, p2, p3, p4) && den != 0.0
    requires t == LineParameter(p1, p2, p3, p4) && u == SegmentParameter(p1, p2, p3, p4)
    ensures PointAt(p1, p2, t) == Add(p3, Scale(u, Sub(p4, p3)))
  {
    ParametersSolve(p1, p2, p3, p4, den, t, u);
    Along(p1.x, p2.x, p3.x, p4.x, t, u);
    Along(p1.y, p2.y, p3.y, p4.y, t, u);
  }

  /** The two parameters solve both coordinate equations of the crossing. */
  lemma ParametersSolve(p1: Point, p2: Point, p3: Point, p4: Point, den: real, t: real, u: real)
    requires den == Denominator(p1, p2, p3, p4) && den != 0.0
    requires t == LineParameter(p1, p2, p3, p4) && u == SegmentParameter(p1, p2, p3, p4)
    ensures (p1.x - p3.x) - t * (p1.x - p2.x) + u * (p3.x - p4.x) == 0.0
    ensures (p1.y - p3.y) - t * (p1.y - p2.y) + u * (p3.y - p4.y) == 0.0
  {
    Solved(p1.x - p2.x, p1.y - p2.y, p3.x - p4.x, p3.y - p4.y, p1.x - p3.x, p1.y - p3.y, den, t, u);
  }

  /** The quotients `LineParameter` and `SegmentParameter` compute satisfy the system. */
  lemma Solved(a: real, b: real, c: real, d: real, e: real, f: real, den: real, t: real, u: real)
    requires den == a * d - b * c && den != 0.0
    requires t == (e * d - f * c) / den && u == -(a * f - b * e) / den
    ensures e - t * a + u * c == 0.0 && f - t * b + u * d == 0.0
  {
    assert t * den == e * d - f * c;
    assert u * den == -(a * f - b * e);
    Cramer(a, b, c, d, e, f, den, t, u);
  }

  /** One coordinate of the meeting point, from the solved system. */
  lemma Along(x1: real, x2: real, x3: real, x4: real, t: real, u: real)
    requires (x1 - x3) - t * (x1 - x2) + u * (x3 - x4) == 0.0
    ensures x1 + t * (x2 - x1) == x3 + u * (x4 - x3)
  {
    assert t * (x2 - x1) == -(t * (x1 - x2));
    assert u * (x4 - x3) == -(u * (x3 - x4));
  }

  /** Cramer's rule for the 2x2 system behind `LineParameter` and `SegmentParameter`. */
  lemma Cramer(a: real, b: real, c: real, d: real, e: real, f: real, den: real, t: real, u: real)
    requires den == a * d - b * c && den != 0.0
    requires t * den == e * d - f * c && u * den == -(a * f - b * e)
    ensures e - t * a + u * c == 0.0 && f - t * b + u * d == 0.0
  {
    assert (e - t * a + u * c) * den == e * den - a * (t * den) + c * (u * den);
    assert (f - t * b + u * d) * den == f * den - b * (t * den) + d * (u * den);
    ZeroFactor(e - t * a + u * c, den);
    ZeroFactor(f - t * b + u * d, den);
  }

  lemma ZeroFactor(x: real, k: real)
    requires x * k == 0.0 && k != 0.0
    ensures x == 0.0
  {
  }

  // ---------------------------------------------------------------- nearest hit

  /** The vector with both coordinates divided by `k`. */
  function DivideBy(v: Point, k: real): Point
    requires k != 0.0
  {
    Point(v.x / k, v.y / k)
  }

  /**
   * The hit of the ray from `center` towards `target` on one boundary segment:
   * the line through the ray crosses the segment at a point lying ahead of
   * the centre.
   */
  function RayHit(center: Point, target: Point, seg: Segment, sqrt: real -> real): Option<Point>
    requires IsSqrt(sqrt)
  {
    var d := Sub(target, center);
    var len := sqrt(Norm2(d));
    if len == 0.0 then None
    else
      var dir := DivideBy(d, len);
      var hit := LineSegmentIntersection(center, Add(center, Scale(1000.0, dir)), seg.a, seg.b);
      if hit.Some? && Dot(Sub(hit.value, center), dir) > 0.0 then hit else None
  }

  /** A hit lies ahead of the centre: its offset has positive projection on the direction to the target. */
  lemma RayHitAhead(center: Point, target: Point, seg: Segment, sqrt: real -> real)
    requires IsSqrt(sqrt)
    ensures RayHit(center, target, seg, sqrt).Some? ==>
      Dot(Sub(RayHit(center, target, seg, sqrt).value, center), Sub(target, center)) > 0.0
  {
    var d := Sub(target, center);
    var len := sqrt(Norm2(d));
    LengthPositive(d, sqrt);
    var h := RayHit(center, target, seg, sqrt);
    if h.Some? {
      var dir := DivideBy(d, len);
      var w := Sub(h.value, center);
      assert Dot(w, dir) == Dot(w, d) / len;
    }
  }

  /**
   * The hit test as the source writes it, `if intersection:`: a QPointF at
   * (0, 0) counts as false, so a hit exactly at the scene origin is dropped.
   */
  function RayHitAsWritten(center: Point, target: Point, seg: Segment, sqrt: real -> real): (r: Option<Point>)
    requires IsSqrt(sqrt)
    ensures r.Some? ==> r == RayHit(center, target, seg, sqrt) && r.value != Point(0.0, 0.0)
    ensures RayHit(center, target, seg, sqrt).Some? && RayHit(center, target, seg, sqrt).value != Point(0.0, 0.0)
      ==> r == RayHit(center, target, seg, sqrt)
  {
    var h := RayHit(center, target, seg, sqrt);
    if h.Some? && h.value == Point(0.0, 0.0) then None else h
  }

  /**
   * A node centred at (40, 0) whose left edge runs through the origin: the
   * ray towards (-100, 0) meets that edge at the origin, which the source's
   * test drops.
   */
  lemma OriginHitDropped(sqrt: real -> real)
    requires IsSqrt(sqrt)
    ensures RayHit(Point(40.0, 0.0), Point(-100.0, 0.0), Segment(Point(0.0, -40.0), Point(0.0, 40.0)), sqrt)
      == Some(Point(0.0, 0.0))
    ensures RayHitAsWritten(Point(40.0, 0.0), Point(-100.0, 0.0), Segment(Point(0.0, -40.0), Point(0.0, 40.0)), sqrt)
      == None
  {
    OriginLength(sqrt);
    OriginDirection();
    OriginFarHit();
    OriginAhead();
    RayHitAt(Point(40.0, 0.0), Point(-100.0, 0.0), Segment(Point(0.0, -40.0), Point(0.0, 40.0)), sqrt,
      140.0, Point(-1.0, 0.0), Point(0.0, 0.0));
  }

  /** The ray hit is `hit` when the segment test, run with this length and direction, yields it ahead of the centre. */
  lemma RayHitAt(center: Point, target: Point, seg: Segment, sqrt: real -> real, len: real, dir: Point, hit: Point)
    requires IsSqrt(sqrt)
    requires sqrt(Norm2(Sub(target, center))) == len && len != 0.0 && DivideBy(Sub(target, center), len) == dir
    requires LineSegmentIntersection(center, Add(center, Scale(1000.0, dir)), seg.a, seg.b) == Some(hit)
    requires Dot(Sub(hit, center), dir) > 0.0
    ensures RayHit(center, target, seg, sqrt) == Some(hit)
  {
  }

  // The arithmetic of the example, one step per lemma.
  lemma OriginLength(sqrt: real -> real)
    requires IsSqrt(sqrt)
    ensures sqrt(Norm2(Sub(Point(-100.0, 0.0), Point(40.0, 0.0)))) == 140.0
  {
    OriginOffset();
    OriginNorm();
    Sqrt19600(sqrt);
  }

  lemma OriginDirection()
    ensures DivideBy(Sub(Point(-100.0, 0.0), Point(40.0, 0.0)), 140.0) == Point(-1.0, 0.0)
  {
    OriginOffset();
    OriginUnitDirection();
  }

  lemma OriginFarHit()
    ensures LineSegmentIntersection(Point(40.0, 0.0), Add(Point(40.0, 0.0), Scale(1000.0, Point(-1.0, 0.0))),
      Point(0.0, -40.0), Point(0.0, 40.0)) == Some(Point(0.0, 0.0))
  {
    OriginFarPoint();
    OriginIntersection(Point(40.0, 0.0), Point(-960.0, 0.0), Point(0.0, -40.0), Point(0.0, 40.0));
  }

  lemma OriginAhead()
    ensures Dot(Sub(Point(0.0, 0.0), Point(40.0, 0.0)), Point(-1.0, 0.0)) > 0.0
  {
    OriginBack();
    OriginBackDot();
  }

  lemma OriginOffset()
    ensures Sub(Point(-100.0, 0.0), Point(40.0, 0.0)) == Point(-140.0, 0.0)
  {
  }

  lemma OriginNorm()
    ensures Norm2(Point(-140.0, 0.0)) == 19600.0
  {
  }

  lemma Sqrt19600(sqrt: real -> real)
    requires IsSqrt(sqrt)
    ensures sqrt(19600.0) == 140.0
  {
    assert IsSqrtOf(sqrt(19600.0), 19600.0);
    assert IsSqrtOf(140.0, 19600.0);
    SqrtMonotone(sqrt(19600.0), 19600.0, 140.0, 19600.0);
  }

  lemma OriginUnitDirection()
    ensures DivideBy(Point(-140.0, 0.0), 140.0) == Point(-1.0, 0.0)
  {
  }

  lemma OriginFarPoint()
    ensures Add(Point(40.0, 0.0), Scale(1000.0, Point(-1.0, 0.0))) == Point(-960.0, 0.0)
  {
  }

  lemma OriginBack()
    ensures Sub(Point(0.0, 0.0), Point(40.0, 0.0)) == Point(-40.0, 0.0)
  {
  }

  lemma OriginBackDot()
    ensures Dot(Point(-40.0, 0.0), Point(-1.0, 0.0)) == 40.0
  {
  }

  lemma OriginIntersection(p1: Point, p2: Point, p3: Point, p4: Point)
    requires p1 == Point(40.0, 0.0) && p2 == Point(-960.0, 0.0)
    requires p3 == Point(0.0, -40.0) && p4 == Point(0.0, 40.0)
    ensures LineSegmentIntersection(p1, p2, p3, p4) == Some(Point(0.0, 0.0))
  {
    assert Denominator(p1, p2, p3, p4) == -80000.0;
    assert LineParameter(p1, p2, p3, p4) == 0.04;
    assert SegmentParameter(p1, p2, p3, p4) == 0.5;
    assert PointAt(p1, p2, 0.04) == Point(0.0, 0.0);
  }

  function Dist2(p: Point, q: Point): real
  {
    Norm2(Sub(p, q))
  }

  /**
   * Segment `k` holds the hit nearest to the centre: no hit is nearer, and
   * every hit on an earlier segment is strictly farther.
   */
  ghost predicate NearestHit(center: Point, target: Point, segments: seq<Segment>, sqrt: real -> real, k: int)
    requires IsSqrt(sqrt)
  {
    0 <= k < |segments| && RayHit(center, target, segments[k], sqrt).Some?
    && forall j :: 0 <= j < |segments| && RayHit(center, target, segments[j], sqrt).Some? ==>
         var dk := Dist2(RayHit(center, target, segments[k], sqrt).value, center);
         var dj := Dist2(RayHit(center, target, segments[j], sqrt).value, center);
         dk <= dj && (j < k ==> dj > dk)
  }

  /**
   * The nearest hit among `segments`, an earlier segment winning a tie:
   * what the scan of `_find_closest_point_on_boundary` keeps.
   */
  function Closest(center: Point, target: Point, segments: seq<Segment>, sqrt: real -> real): Option<Point>
    requires IsSqrt(sqrt)
  {
    if |segments| == 0 then None
    else
      var best := Closest(center, target, segments[..|segments| - 1], sqrt);
      var hit := RayHit(center, target, segments[|segments| - 1], sqrt);
      if hit.None? then best
      else if best.None? || Dist2(hit.value, center) < Dist2(best.value, center) then hit
      else best
  }

  /**
   * The scan finds nothing exactly when no segment is hit, and otherwise
   * the hit on a segment that holds the nearest hit, no earlier segment's
   * hit being as near.
   */
  lemma {:induction false} ClosestIsNearest(center: Point, target: Point, segments: seq<Segment>, sqrt: real -> real)
    returns (k: int)
    requires IsSqrt(sqrt)
    ensures Closest(center, target, segments, sqrt).None? <==>
      forall j :: 0 <= j < |segments| ==> RayHit(center, target, segments[j], sqrt).None?
    ensures Closest(center, target, segments, sqrt).Some? ==>
      NearestHit(center, target, segments, sqrt, k)
      && Closest(center, target, segments, sqrt) == RayHit(center, target, segments[k], sqrt)
  {
    if |segments| == 0 {
      return -1;
    }
    var n := |segments|;
    var init := segments[..n - 1];
    var k0 := ClosestIsNearest(center, target, init, sqrt);
    var best := Closest(center, target, init, sqrt);
    var hit := RayHit(center, target, segments[n - 1], sqrt);
    if hit.Some? && (best.None? || Dist2(hit.value, center) < Dist2(best.value, center)) {
      NewHitNearest(center, target, segments, sqrt, k0);
      k := n - 1;
    } else {
      EarlierHitNearest(center, target, segments, sqrt, k0);
      k := k0;
    }
  }

  /** The step of `ClosestIsNearest` where the last segment's hit is strictly nearer than all before. */
  lemma NewHitNearest(center: Point, target: Point, segments: seq<Segment>, sqrt: real -> real, k0: int)
    requires IsSqrt(sqrt) && |segments| > 0
    requires var init := segments[..|segments| - 1];
      && (Closest(center, target, init, sqrt).None? <==>
        forall j :: 0 <= j < |init| ==> RayHit(center, target, init[j], sqrt).None?)
      && (Closest(center, target, init, sqrt).Some? ==>
        NearestHit(center, target, init, sqrt, k0) && Closest(center, target, init, sqrt) == RayHit(center, target, init[k0], sqrt))
    requires var best := Closest(center, target, segments[..|segments| - 1], sqrt);
      var hit := RayHit(center, target, segments[|segments| - 1], sqrt);
      hit.Some? && (best.None? || Dist2(hit.value, center) < Dist2(best.value, center))
    ensures Closest(center, target, segments, sqrt).Some?
    ensures NearestHit(center, target, segments, sqrt, |segments| - 1)
    ensures Closest(center, target, segments, sqrt) == RayHit(center, target, segments[|segments| - 1], sqrt)
  {
    var init := segments[..|segments| - 1];
    assert forall j :: 0 <= j < |init| ==> init[j] == segments[j];
  }

  /** The step of `ClosestIsNearest` where the nearest hit so far stays the nearest. */
  lemma EarlierHitNearest(center: Point, target: Point, segments: seq<Segment>, sqrt: real -> real, k0: int)
    requires IsSqrt(sqrt) && |segments| > 0
    requires var init := segments[..|segments| - 1];
      && (Closest(center, target, init, sqrt).None? <==>
        forall j :: 0 <= j < |init| ==> RayHit(center, target, init[j], sqrt).None?)
      && (Closest(center, target, init, sqrt).Some? ==>
        NearestHit(center, target, init, sqrt, k0) && Closest(center, target, init, sqrt) == RayHit(center, target, init[k0], sqrt))
    requires var best := Closest(center, target, segments[..|segments| - 1], sqrt);
      var hit := RayHit(center, target, segments[|segments| - 1], sqrt);
      !(hit.Some? && (best.None? || Dist2(hit.value, center) < Dist2(best.value, center)))
    ensures Closest(center, target, segments, sqrt).None? <==>
      forall j :: 0 <= j < |segments| ==> RayHit(center, target, segments[j], sqrt).None?
    ensures Closest(center, target, segments, sqrt).Some? ==>
      NearestHit(center, target, segments, sqrt, k0)
      && Closest(center, target, segments, sqrt) == RayHit(center, target, segments[k0], sqrt)
  {
    var init := segments[..|segments| - 1];
    assert forall j :: 0 <= j < |init| ==> init[j] == segments[j];
  }

  /**
   * `_find_closest_point_on_boundary`: the nearest boundary hit ahead of the
   * centre along the direction to the target, the first one found winning a
   * tie; the centre itself when the target is the centre or nothing is hit.
   */
  method ClosestPointOnBoundary(center: Point, target: Point, segments: seq<Segment>, sqrt: real -> real)
    returns (p: Point)
    requires IsSqrt(sqrt)
    ensures Closest(center, target, segments, sqrt).Some? ==> p == Closest(center, target, segments, sqrt).value
    ensures Closest(center, target, segments, sqrt).None? ==> p == center
  {
    var d := Sub(target, center);
    var length := sqrt(Norm2(d));
    LengthPositive(d, sqrt);
    if length == 0.0 {
      NothingHitFromTarget(center, segments, sqrt);
      return center;
    }
    var dir := DivideBy(d, length);
    p := center;
    var minDistance: Option<real> := None;
    var i := 0;
    while i < |segments|
      invariant 0 <= i <= |segments|
      invariant minDistance.None? <==> Closest(center, target, segments[..i], sqrt).None?
      invariant minDistance.None? ==> p == center
      invariant minDistance.Some? ==>
        (Closest(center, target, segments[..i], sqrt) == Some(p) && IsSqrtOf(minDistance.value, Dist2(p, center)))
    {
      assert segments[..i + 1][..i] == segments[..i];
      var seg := segments[i];
      var intersection := LineSegmentIntersection(center, Add(center, Scale(1000.0, dir)), seg.a, seg.b);
      if intersection.Some? {
        var to := Sub(intersection.value, center);
        var dot := Dot(to, dir);
        if dot > 0.0 {
          assert RayHit(center, target, seg, sqrt) == intersection;
          var distance := sqrt(Norm2(to));
          Norm2NonNegative(to);
          assert IsSqrtOf(distance, Dist2(intersection.value, center));
          if minDistance.Some? {
            SqrtMonotone(distance, Dist2(intersection.value, center), minDistance.value, Dist2(p, center));
          }
          if minDistance.None? || distance < minDistance.value {
            minDistance := Some(distance);
            p := intersection.value;
          }
        } else {
          assert RayHit(center, target, seg, sqrt).None?;
        }
      } else {
        assert RayHit(center, target, seg, sqrt).None?;
      }
      i := i + 1;
    }
    assert segments[..i] == segments;
  }

  /** A ray towards its own starting point hits nothing. */
  lemma NothingHitFromTarget(center: Point, segments: seq<Segment>, sqrt: real -> real)
    requires IsSqrt(sqrt)
    ensures Closest(center, center, segments, sqrt).None?
  {
    var k := ClosestIsNearest(center, center, segments, sqrt);
    forall j | 0 <= j < |segments|
      ensures RayHit(center, center, segments[j], sqrt).None?
    {
      LengthPositive(Sub(center, center), sqrt);
    }
  }

  /**
   * `_get_edge_intersection` once the boundary is flattened: the centre itself
   * when the two centres are within 0.001 on both axes or nothing is hit,
   * else the nearest boundary hit towards the other centre.
   */
  function EdgePoint(center: Point, target: Point, boundary: seq<Segment>, sqrt: real -> real): Point
    requires IsSqrt(sqrt)
  {
    if Abs(target.x - center.x) < 0.001 && Abs(target.y - center.y) < 0.001 then center
    else
      var hit := Closest(center, target, boundary, sqrt);
      if hit.Some? then hit.value else center
  }

  /** `p` is the centre itself or the nearest boundary hit towards the target. */
  ghost predicate BoundaryPoint(p: Point, center: Point, target: Point, boundary: seq<Segment>, sqrt: real -> real)
    requires IsSqrt(sqrt)
  {
    p == center
    || exists k :: (NearestHit(center, target, boundary, sqrt, k) && p == RayHit(center, target, boundary[k], sqrt).value)
  }

  /**
   * The edge point is the nearest boundary hit when there is one and the
   * centres are apart, and the centre otherwise.
   */
  lemma EdgePointIsNearestHit(center: Point, target: Point, boundary: seq<Segment>, sqrt: real -> real)
    requires IsSqrt(sqrt)
    ensures BoundaryPoint(EdgePoint(center, target, boundary, sqrt), center, target, boundary, sqrt)
    ensures (forall j :: 0 <= j < |boundary| ==> RayHit(center, target, boundary[j], sqrt).None?)
      ==> EdgePoint(center, target, boundary, sqrt) == center
    ensures !(Abs(target.x - center.x) < 0.001 && Abs(target.y - center.y) < 0.001)
      && (exists j :: 0 <= j < |boundary| && RayHit(center, target, boundary[j], sqrt).Some?)
      ==> (exists k :: NearestHit(center, target, boundary, sqrt, k)
             && EdgePoint(center, target, boundary, sqrt) == RayHit(center, target, boundary[k], sqrt).value)
  {
    var k := ClosestIsNearest(center, target, boundary, sqrt);
  }

  method EdgeIntersection(center: Point, target: Point, boundary: seq<Segment>, sqrt: real -> real)
    returns (p: Point)
    requires IsSqrt(sqrt)
    ensures p == EdgePoint(center, target, boundary, sqrt)
  {
    if Abs(target.x - center.x) < 0.001 && Abs(target.y - center.y) < 0.001 {
      return center;
    }
    p := ClosestPointOnBoundary(center, target, boundary, sqrt);
  }

  // ---------------------------------------------------------------- curves

  /** The unit normal of the direction from `start` to `end` (a zero vector when they coincide). */
  function UnitNormal(start: Point, end: Point, sqrt: real -> real): (n: Point)
    requires IsSqrt(sqrt)
    ensures Dot(n, Sub(end, start)) == 0.0
    ensures start != end ==> Norm2(n) == 1.0
    ensures start == end ==> n == Point(0.0, 0.0)
  {
    var perp := Perp(Sub(end, start));
    var length := sqrt(Norm2(perp));
    UnitNormalFacts(start, end, sqrt);
    if length > 0.0 then Scale(1.0 / length, perp) else perp
  }

  lemma UnitNormalFacts(start: Point, end: Point, sqrt: real -> real)
    requires IsSqrt(sqrt)
    ensures var perp := Perp(Sub(end, start));
      var length := sqrt(Norm2(perp));
      (length > 0.0 ==> Dot(Scale(1.0 / length, perp), Sub(end, start)) == 0.0 && Norm2(Scale(1.0 / length, perp)) == 1.0)
      && (length > 0.0 <==> start != end)
      && Dot(perp, Sub(end, start)) == 0.0
  {
    var d := Sub(end, start);
    var perp := Perp(d);
    var length := sqrt(Norm2(perp));
    LengthPositive(perp, sqrt);
    PerpIsOrthogonal(d);
    if length > 0.0 {
      UnitLength(perp, length);
      var k := 1.0 / length;
      assert Dot(Scale(k, perp), d) == k * Dot(perp, d);
    }
  }

  lemma UnitLength(v: Point, len: real)
    requires len > 0.0 && len * len == Norm2(v)
    ensures Norm2(Scale(1.0 / len, v)) == 1.0
  {
    var k := 1.0 / len;
    assert Norm2(Scale(k, v)) == k * k * Norm2(v);
    assert k * len == 1.0;
  }

  /**
   * `_calculate_bezier_control_points`: the points 0.3 and 0.7 of the way from
   * start to end, both pushed `offset` along the unit normal `normal`.
   */
  function BezierControlPoints(start: Point, end: Point, normal: Point, offset: real): (cps: (Point, Point))
    ensures Sub(cps.1, cps.0) == Scale(0.4, Sub(end, start))
    ensures Sub(cps.0, Add(start, Scale(0.3, Sub(end, start)))) == Scale(offset, normal)
    ensures Sub(cps.1, Add(start, Scale(0.7, Sub(end, start)))) == Scale(offset, normal)
  {
    var d := Sub(end, start);
    var off := Scale(offset, normal);
    (Point(start.x + 0.3 * d.x + off.x, start.y + 0.3 * d.y + off.y),
     Point(start.x + 0.7 * d.x + off.x, start.y + 0.7 * d.y + off.y))
  }

  /** With no offset both control points lie on the straight line from start to end. */
  lemma StraightControlPoints(start: Point, end: Point, normal: Point)
    ensures var cps := BezierControlPoints(start, end, normal, 0.0);
      Cross(Sub(cps.0, start), Sub(end, start)) == 0.0 && Cross(Sub(cps.1, start), Sub(end, start)) == 0.0
  {
    var d := Sub(end, start);
    var cps := BezierControlPoints(start, end, normal, 0.0);
    assert Sub(cps.0, start) == Scale(0.3, d);
    assert Sub(cps.1, start) == Scale(0.7, d);
  }

  const BaseOffset: real := 30.0

  /**
   * The offset of the arrow at sorted position `index` in a group of `n`:
   * +30 and -30 for a pair, else spread symmetrically 30 apart about zero.
   */
  function GroupOffset(index: nat, n: nat): (r: real)
    requires index < n
  {
    if n == 2 then (if index == 0 then BaseOffset else -BaseOffset)
    else (index as real - (n - 1) as real / 2.0) * BaseOffset
  }

  /** Positions mirrored about the middle of the group get opposite offsets. */
  lemma GroupOffsetMirror(index: nat, n: nat)
    requires index < n
    ensures GroupOffset(index, n) == -GroupOffset(n - 1 - index, n)
  {
  }

  /** Distinct positions get distinct offsets, so no two arrows of a group share a curve. */
  lemma GroupOffsetInjective(i: nat, j: nat, n: nat)
    requires i < n && j < n && i != j
    ensures GroupOffset(i, n) != GroupOffset(j, n)
  {
  }

  function SumOffsets(k: nat, n: nat): real
    requires k <= n
  {
    if k == 0 then 0.0 else SumOffsets(k - 1, n) + GroupOffset(k - 1, n)
  }

  lemma {:induction false} SumOffsetsClosed(k: nat, n: nat)
    requires k <= n && n != 2
    ensures SumOffsets(k, n) == ((k * (k - 1)) as real / 2.0 - k as real * (n - 1) as real / 2.0) * BaseOffset
  {
    if k > 0 {
      SumOffsetsClosed(k - 1, n);
    }
  }

  /** A group's offsets cancel out: the curves fan out evenly on both sides. */
  lemma GroupOffsetsSumToZero(n: nat)
    ensures SumOffsets(n, n) == 0.0
  {
    if n != 2 {
      SumOffsetsClosed(n, n);
    }
  }

  // ---------------------------------------------------------------- self-loops

  /** The unit vector pointing out of a node through the given side (y grows downwards). */
  function Outward(side: Side): Point
  {
    match side
    case Top => Point(0.0, -1.0)
    case Bottom => Point(0.0, 1.0)
    case Left => Point(-1.0, 0.0)
    case Right => Point(1.0, 0.0)
  }

  /** The midpoint of a side of a `w` by `h` node centred on `center`. */
  function EdgeMidpoint(center: Point, w: real, h: real, side: Side): Point
  {
    match side
    case Top | Bottom => Add(center, Scale(h / 2.0, Outward(side)))
    case Left | Right => Add(center, Scale(w / 2.0, Outward(side)))
  }

  /**
   * `_update_self_loop_position`: a loop of radius 0.6 times the larger node
   * dimension, anchored 10 either side of the chosen edge's midpoint, its
   * centre one radius beyond that midpoint.
   */
  function SelfLoop(center: Point, w: real, h: real, side: Side): (g: Loop)
    ensures g.radius == 0.6 * Max(w, h)
    ensures Mid(g.start, g.end) == EdgeMidpoint(center, w, h, side)
    ensures Dist2(g.end, g.start) == 400.0
    ensures Dot(Sub(g.end, g.start), Outward(side)) == 0.0
    ensures g.center == Add(EdgeMidpoint(center, w, h, side), Scale(g.radius, Outward(side)))
  {
    var r := Max(w, h) * 0.6;
    match side
    case Top =>
      var y := center.y - h / 2.0;
      Loop(Point(center.x - 10.0, y), Point(center.x + 10.0, y), Point(center.x, y - r), r)
    case Bottom =>
      var y := center.y + h / 2.0;
      Loop(Point(center.x - 10.0, y), Point(center.x + 10.0, y), Point(center.x, y + r), r)
    case Left =>
      var x := center.x - w / 2.0;
      Loop(Point(x, center.y - 10.0), Point(x, center.y + 10.0), Point(x - r, center.y), r)
    case Right =>
      var x := center.x + w / 2.0;
      Loop(Point(x, center.y - 10.0), Point(x, center.y + 10.0), Point(x + r, center.y), r)
  }

  function Count(c: SideCounts, side: Side): nat
  {
    match side
    case Top => c.top
    case Bottom => c.bottom
    case Left => c.left
    case Right => c.right
  }

  /** The order in which the sides are considered: top, bottom, left, right. */
  function Rank(side: Side): nat
  {
    match side
    case Top => 0
    case Bottom => 1
    case Left => 2
    case Right => 3
  }

  /**
   * `_find_best_loop_side`: top without a scene; otherwise the side with the
   * fewest other objects, the earliest such side in the order top, bottom,
   * left, right.
   */
  function BestLoopSide(counts: Option<SideCounts>): (s: Side)
    ensures counts.None? ==> s == Top
    ensures counts.Some? ==> forall t: Side :: Count(counts.value, s) <= Count(counts.value, t)
    ensures counts.Some? ==> forall t: Side :: Rank(t) < Rank(s) ==> Count(counts.value, t) > Count(counts.value, s)
  {
    if counts.None? then Top
    else
      var c := counts.value;
      var m := MinNat(MinNat(c.top, c.bottom), MinNat(c.left, c.right));
      if c.top == m then Top
      else if c.bottom == m then Bottom
      else if c.left == m then Left
      else Right
  }

  function MinNat(a: nat, b: nat): nat
  {
    if a <= b then a else b
  }

  // ---------------------------------------------------------------- parallel arrows

  /** The straight line between the centres of an arrow's two nodes. */
  datatype Line = Line(start: Point, end: Point)

  function Vector(l: Line): Point
  {
    Sub(l.end, l.start)
  }

  /** Less than 1 apart on both axes. */
  predicate Near(p: Point, q: Point)
  {
    Abs(p.x - q.x) < 1.0 && Abs(p.y - q.y) < 1.0
  }

  /**
   * `_segments_overlap_in_projection`: two projected ranges overlap when they
   * are nearly the same range (ends within 5, lengths within 10), or when
   * they share more than 10 units.
   */
  predicate SegmentsOverlapInProjection(min1: real, max1: real, min2: real, max2: real)
  {
    var overlap := Min(max1, max2) - Max(min1, min2);
    (Abs(min1 - min2) < 5.0 && Abs(max1 - max2) < 5.0 && Abs(Abs(max1 - min1) - Abs(max2 - min2)) < 10.0)
    || overlap > 10.0
  }

  /** Which range is called the first does not matter. */
  lemma ProjectionOverlapSymmetric(min1: real, max1: real, min2: real, max2: real)
    ensures SegmentsOverlapInProjection(min1, max1, min2, max2) == SegmentsOverlapInProjection(min2, max2, min1, max1)
  {
  }

  /** Ranges separated by a gap of at least 5 never overlap. */
  lemma ProjectionGapSeparates(min1: real, max1: real, min2: real, max2: real)
    requires min1 <= max1 && max1 + 5.0 <= min2 && min2 <= max2
    ensures !SegmentsOverlapInProjection(min1, max1, min2, max2)
  {
  }

  /**
   * Ranges that are not nearly the same overlap exactly when they share more
   * than 10; sharing exactly 10 is not enough.
   */
  lemma ProjectionOverlapThreshold(min1: real, max1: real, min2: real, max2: real)
    requires min2 == min1 + 20.0 && max1 == min1 + 30.0 && max2 == min1 + 40.0
    ensures !SegmentsOverlapInProjection(min1, max1, min2, max2)
    ensures SegmentsOverlapInProjection(min1, max1 + 0.5, min2, max2 + 0.5)
  {
  }

  /**
   * `_segments_close_enough_perpendicularly`: the midpoints of the two lines
   * lie at most 50 apart across the reference direction `dir`.
   */
  predicate CloseAcross(l1: Line, l2: Line, dir: Point)
  {
    Abs(Dot(Mid(l1.start, l1.end), Perp(dir)) - Dot(Mid(l2.start, l2.end), Perp(dir))) <= 50.0
  }

  /**
   * `_lines_overlap`: projected on the direction of the longer line (the
   * first on a tie), the two ranges overlap and the lines lie close across
   * that direction. Zero-length lines never overlap.
   */
  predicate LinesOverlap(l1: Line, l2: Line, sqrt: real -> real)
  {
    var v1, v2 := Vector(l1), Vector(l2);
    var len1, len2 := sqrt(Norm2(v1)), sqrt(Norm2(v2));
    if len1 == 0.0 || len2 == 0.0 then false
    else
      var dir := if len1 >= len2 then Point(v1.x / len1, v1.y / len1) else Point(v2.x / len2, v2.y / len2);
      var s1, e1 := Dot(l1.start, dir), Dot(l1.end, dir);
      var s2, e2 := Dot(l2.start, dir), Dot(l2.end, dir);
      SegmentsOverlapInProjection(Min(s1, e1), Max(s1, e1), Min(s2, e2), Max(s2, e2))
      && CloseAcross(l1, l2, dir)
  }

  /**
   * `_lines_are_parallel_and_overlapping`: false when a line is missing; true
   * when the endpoints coincide within 1, in either orientation; false when a
   * line is shorter than 0.000001 or the cross product exceeds 0.001 times
   * the product of the lengths; otherwise whether the lines overlap.
   */
  predicate ParallelAndOverlapping(line1: Option<Line>, line2: Option<Line>, sqrt: real -> real)
  {
    if line1.None? || line2.None? then false
    else
      var l1, l2 := line1.value, line2.value;
      if Near(l1.start, l2.start) && Near(l1.end, l2.end) then true
      else if Near(l1.start, l2.end) && Near(l1.end, l2.start) then true
      else
        var v1, v2 := Vector(l1), Vector(l2);
        var len1, len2 := sqrt(Norm2(v1)), sqrt(Norm2(v2));
        if len1 < 0.000001 || len2 < 0.000001 then false
        else if Abs(Cross(v1, v2)) > 0.001 * len1 * len2 then false
        else LinesOverlap(l1, l2, sqrt)
  }

  /** A line is grouped with itself and with its reversal. */
  lemma ParallelReflexive(l: Line, sqrt: real -> real)
    ensures ParallelAndOverlapping(Some(l), Some(l), sqrt)
    ensures ParallelAndOverlapping(Some(l), Some(Line(l.end, l.start)), sqrt)
  {
  }

  /**
   * Away from the coincident-endpoint cases the tests mean, without square
   * roots: both lines have squared length at least 10^-12, and the squared
   * cross product is at most 10^-6 times the product of the squared lengths
   * (the sine of the angle between them is at most 0.001), and the lines
   * overlap.
   */
  lemma ParallelCriterion(l1: Line, l2: Line, sqrt: real -> real)
    requires IsSqrt(sqrt)
    requires !(Near(l1.start, l2.start) && Near(l1.end, l2.end))
    requires !(Near(l1.start, l2.end) && Near(l1.end, l2.start))
    ensures ParallelAndOverlapping(Some(l1), Some(l2), sqrt) <==>
      (Norm2(Vector(l1)) >= 0.000000000001 && Norm2(Vector(l2)) >= 0.000000000001
       && Cross(Vector(l1), Vector(l2)) * Cross(Vector(l1), Vector(l2))
          <= 0.000001 * (Norm2(Vector(l1)) * Norm2(Vector(l2)))
       && LinesOverlap(l1, l2, sqrt))
  {
    var v1, v2 := Vector(l1), Vector(l2);
    var n1, n2 := Norm2(v1), Norm2(v2);
    var len1, len2 := sqrt(n1), sqrt(n2);
    Norm2NonNegative(v1);
    Norm2NonNegative(v2);
    assert IsSqrtOf(len1, n1) && IsSqrtOf(len2, n2);
    ShortTest(len1, n1);
    ShortTest(len2, n2);
    CrossTest(Cross(v1, v2), len1, n1, len2, n2);
  }

  /** `sqrt(n) < 0.000001` is `n < 10^-12`. */
  lemma ShortTest(len: real, n: real)
    requires IsSqrtOf(len, n)
    ensures len < 0.000001 <==> n < 0.000000000001
  {
    assert IsSqrtOf(0.000001, 0.000000000001);
    SqrtMonotone(len, n, 0.000001, 0.000000000001);
  }

  /** Comparing `|c|` with `0.001 * len1 * len2` is comparing the squares. */
  lemma CrossTest(c: real, len1: real, n1: real, len2: real, n2: real)
    requires IsSqrtOf(len1, n1) && IsSqrtOf(len2, n2)
    ensures Abs(c) > 0.001 * len1 * len2 <==> c * c > 0.000001 * (n1 * n2)
  {
    var t := 0.001 * len1 * len2;
    Grid.MulNonNegative(len1, len2);
    calc {
      t * t;
      0.000001 * ((len1 * len1) * (len2 * len2));
      0.000001 * (n1 * n2);
    }
    calc {
      Abs(c) * Abs(c);
      c * c;
    }
    assert IsSqrtOf(t, 0.000001 * (n1 * n2));
    assert IsSqrtOf(Abs(c), c * c);
    SqrtMonotone(t, 0.000001 * (n1 * n2), Abs(c), c * c);
  }

  /**
   * `_arrows_would_visually_overlap` for one other line: the lines are
   * grouped, this line has a length, and the other's midpoint lies less than
   * 6 from this line's midpoint across this line's direction.
   */
  predicate OverlapsVisually(mine: Line, other: Line, sqrt: real -> real)
  {
    var d := Vector(mine);
    var len := sqrt(Norm2(d));
    ParallelAndOverlapping(Some(mine), Some(other), sqrt) && len != 0.0
    && Abs(Dot(Sub(Mid(other.start, other.end), Mid(mine.start, mine.end)), Point(-d.y / len, d.x / len))) < 6.0
  }

  /** `_arrows_would_visually_overlap`: whether any of `others` overlaps `mine` visually. */
  method WouldVisuallyOverlap(mine: Line, others: seq<Line>, sqrt: real -> real) returns (b: bool)
    ensures b <==> exists k :: 0 <= k < |others| && OverlapsVisually(mine, others[k], sqrt)
  {
    if |others| == 0 {
      return false;
    }
    var d := Vector(mine);
    var len := sqrt(Norm2(d));
    var i := 0;
    while i < |others|
      invariant 0 <= i <= |others|
      invariant forall k :: 0 <= k < i ==> !OverlapsVisually(mine, others[k], sqrt)
    {
      var other := others[i];
      if ParallelAndOverlapping(Some(mine), Some(other), sqrt) && len != 0.0 {
        var perp := Point(-d.y / len, d.x / len);
        var diff := Sub(Mid(other.start, other.end), Mid(mine.start, mine.end));
        if Abs(Dot(diff, perp)) < 6.0 {
          return true;
        }
      }
      i := i + 1;
    }
    return false;
  }

  /** A line of non-zero length drawn twice overlaps itself visually. */
  lemma SameLineOverlapsVisually(l: Line, sqrt: real -> real)
    requires IsSqrt(sqrt) && l.start != l.end
    ensures OverlapsVisually(l, l, sqrt)
  {
    LengthPositive(Vector(l), sqrt);
    ParallelReflexive(l, sqrt);
    assert Sub(Mid(l.start, l.end), Mid(l.start, l.end)) == Point(0.0, 0.0);
  }

  /** Whether every vector of `others` points the same general way as `mine` (no negative dot product). */
  method AllSameDirection(mine: Point, others: seq<Point>) returns (same: bool)
    ensures same <==> forall k :: 0 <= k < |others| ==> Dot(mine, others[k]) >= 0.0
  {
    var i := 0;
    while i < |others|
      invariant 0 <= i <= |others|
      invariant forall k :: 0 <= k < i ==> Dot(mine, others[k]) >= 0.0
    {
      if Dot(mine, others[i]) < 0.0 {
        return false;
      }
      i := i + 1;
    }
    return true;
  }

  /** `_get_direction_factor`: x plus 1000 times y, an ordering key for directions. */
  function DirectionFactor(v: Point): real
  {
    v.x + v.y * 1000.0
  }

  /** Reversing a vector negates its direction factor. */
  lemma DirectionFactorReverses(v: Point)
    ensures DirectionFactor(Scale(-1.0, v)) == -DirectionFactor(v)
  {
  }

  /**
   * The offset of arrow `index` among `total` that point in mixed directions:
   * for a pair pointing opposite ways, +30 for the larger direction factor
   * and -30 otherwise; for a pair pointing the same way, +30 and -30 by
   * index; for more arrows the symmetric fan, mirrored when this arrow's
   * direction factor is negative.
   */
  function MixedOffset(index: nat, total: nat, opposite: bool, mine: real, other: real): real
    requires index < total
  {
    if total == 2 then
      if opposite then (if mine > other then BaseOffset else -BaseOffset)
      else GroupOffset(index, 2)
    else if mine < 0.0 then -GroupOffset(index, total)
    else GroupOffset(index, total)
  }

  /** Two opposite arrows with different direction factors curve away from each other. */
  lemma OppositePairCurvesApart(i: nat, j: nat, a: real, b: real)
    requires i < 2 && j < 2 && a != b
    ensures MixedOffset(i, 2, true, a, b) == -MixedOffset(j, 2, true, b, a)
  {
  }

  /** In larger mixed groups each arrow keeps its fan distance from the straight line. */
  lemma MixedOffsetMagnitude(index: nat, total: nat, opposite: bool, mine: real, other: real)
    requires index < total && total != 2
    ensures Abs(MixedOffset(index, total, opposite, mine, other)) == Abs(GroupOffset(index, total))
  {
  }

  /** The offset of arrow `index` of a group all pointing the same way: 30, 60, 90, ... */
  function SameDirectionOffset(index: nat): real
  {
    BaseOffset * (index + 1) as real
  }

  /** Same-way arrows all curve to the same side, each further out than the one before. */
  lemma SameDirectionOffsetsFanOut(i: nat, j: nat)
    requires i < j
    ensures 0.0 < SameDirectionOffset(i) < SameDirectionOffset(j)
  {
  }
}
