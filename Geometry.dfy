/** The two algs4 primitives the 2-d tree is built on, `Point2D` and
    `RectHV`, with their standard meanings over exact reals. */
module Geometry {

  datatype Point = Point(x: real, y: real)

  datatype Rect = Rect(xmin: real, ymin: real, xmax: real, ymax: real)

  /** `RectHV` refuses to be built with a minimum above its maximum. */
  type RectHV = r: Rect | r.xmin <= r.xmax && r.ymin <= r.ymax
    witness Rect(0.0, 0.0, 0.0, 0.0)

  /** The unit square [0,1] x [0,1], the region of the root. */
  const Unit: RectHV := Rect(0.0, 0.0, 1.0, 1.0)

  function Sq(a: real): real { a * a }

  /** `Point2D.distanceSquaredTo`. */
  function DistSq(a: Point, b: Point): real {
    Sq(a.x - b.x) + Sq(a.y - b.y)
  }

  /** `RectHV.contains`: the boundary is inside. */
  predicate Contains(r: Rect, p: Point) {
    r.xmin <= p.x <= r.xmax && r.ymin <= p.y <= r.ymax
  }

  /** `RectHV.intersects`: the two rectangles share at least a boundary point. */
  predicate Intersects(a: Rect, b: Rect) {
    a.xmax >= b.xmin && a.ymax >= b.ymin && b.xmax >= a.xmin && b.ymax >= a.ymin
  }

  /** Signed gap from `v` to the interval [lo, hi], zero inside it. */
  function Gap(v: real, lo: real, hi: real): real {
    if v < lo then v - lo else if v > hi then v - hi else 0.0
  }

  /** `RectHV.distanceSquaredTo`: squared distance from `p` to the closest
      point of `r`. */
  function RectDistSq(r: Rect, p: Point): real {
    Sq(Gap(p.x, r.xmin, r.xmax)) + Sq(Gap(p.y, r.ymin, r.ymax))
  }

  /** `Point2D.compareTo`: by y-coordinate, ties broken by x-coordinate.
      It orders the brute-force set. */
  predicate Less(a: Point, b: Point) {
    a.y < b.y || (a.y == b.y && a.x < b.x)
  }

  lemma SqMonotone(a: real, b: real)
    requires 0.0 <= a <= b
    ensures Sq(a) <= Sq(b)
  {
    assert a * a <= a * b;
    assert a * b <= b * b;
  }

  lemma SqNonNegative(a: real)
    ensures 0.0 <= Sq(a) && Sq(-a) == Sq(a)
  {
    if a < 0.0 {
      SqMonotone(0.0, -a);
    } else {
      SqMonotone(0.0, a);
    }
  }

  /** The gap to an interval is at most the distance to any point of it. */
  lemma GapBelow(v: real, lo: real, hi: real, w: real)
    requires lo <= w <= hi
    ensures Sq(Gap(v, lo, hi)) <= Sq(v - w)
  {
    var g := Gap(v, lo, hi);
    SqNonNegative(g);
    SqNonNegative(v - w);
    if v < lo {
      SqMonotone(lo - v, w - v);
    } else if v > hi {
      SqMonotone(v - hi, v - w);
    }
  }

  /** The pruning fact behind `nearest`: no point of `r` is closer to `p`
      than `r` itself. */
  lemma RectDistAtMostPointDist(r: Rect, p: Point, q: Point)
    requires Contains(r, q)
    ensures RectDistSq(r, p) <= DistSq(p, q)
  {
    GapBelow(p.x, r.xmin, r.xmax, q.x);
    GapBelow(p.y, r.ymin, r.ymax, q.y);
  }

  lemma SqPositive(a: real)
    requires a != 0.0
    ensures 0.0 < Sq(a)
  {
    if a < 0.0 {
      calc { Sq(a); == (-a) * (-a); > 0.0; }
    } else {
      calc { Sq(a); == a * a; > 0.0; }
    }
  }

  /** The distance to a rectangle is zero exactly for its points. */
  lemma RectDistZeroIffContains(r: RectHV, p: Point)
    ensures RectDistSq(r, p) == 0.0 <==> Contains(r, p)
  {
    var gx, gy := Gap(p.x, r.xmin, r.xmax), Gap(p.y, r.ymin, r.ymax);
    SqNonNegative(gx);
    SqNonNegative(gy);
    if gx != 0.0 { SqPositive(gx); }
    if gy != 0.0 { SqPositive(gy); }
  }

  /** Point-to-point squared distance is symmetric and never negative. */
  lemma DistSqSymmetric(a: Point, b: Point)
    ensures DistSq(a, b) == DistSq(b, a) && 0.0 <= DistSq(a, b)
  {
    SqNonNegative(a.x - b.x);
    SqNonNegative(a.y - b.y);
    assert b.x - a.x == -(a.x - b.x);
    assert b.y - a.y == -(a.y - b.y);
  }

  /** `intersects` holds exactly when the two rectangles share a point. */
  lemma IntersectsIffCommonPoint(a: RectHV, b: RectHV)
    ensures Intersects(a, b) <==> exists p :: Contains(a, p) && Contains(b, p)
  {
    if Intersects(a, b) {
      var w := Point(if a.xmin < b.xmin then b.xmin else a.xmin,
                     if a.ymin < b.ymin then b.ymin else a.ymin);
      assert Contains(a, w) && Contains(b, w);
    }
  }
}
