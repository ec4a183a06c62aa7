/** `PointSET`: the brute-force point set. Its `TreeSet<Point2D>` is
    modelled as the sequence the set iterates in, strictly increasing in
    `Point2D.compareTo` order, which is what makes "the first minimum" and
    "in the set's order" meaningful. */
module PointSets {
  import opened Common
  import opened Geometry

  /** Strictly increasing in `Point2D.compareTo` order. */
  ghost predicate Sorted(s: seq<Point>) {
    forall i, j | 0 <= i < j < |s| :: Less(s[i], s[j])
  }

  function Members(s: seq<Point>): set<Point> {
    set x | x in s
  }

  /** `TreeSet.add`: the point goes to its place in the order; a point
      already present leaves the set as it was. */
  function InsertSorted(s: seq<Point>, p: Point): seq<Point> {
    if s == [] then [p]
    else if Less(p, s[0]) then [p] + s
    else if p == s[0] then s
    else [s[0]] + InsertSorted(s[1..], p)
  }

  /** The members of `s` inside `rect`, in the order of `s`. */
  function Filter(s: seq<Point>, rect: Rect): seq<Point> {
    if s == [] then []
    else Filter(s[..|s| - 1], rect) + (if Contains(rect, s[|s| - 1]) then [s[|s| - 1]] else [])
  }

  /** The running minimum of `nearest`'s loop: `best` is replaced only by a
      strictly closer point. */
  function Scan(s: seq<Point>, q: Point, best: Point): Point {
    if s == [] then best
    else Scan(s[1..], q, if DistSq(s[0], q) < DistSq(best, q) then s[0] else best)
  }

  /** What `nearest` returns on the set iterated as `s`. */
  function NearestOf(s: seq<Point>, q: Point): Option<Point> {
    if s == [] then None else Some(Scan(s, q, s[0]))
  }

  lemma LessTrichotomy(a: Point, b: Point)
    ensures Less(a, b) || a == b || Less(b, a)
    ensures !(Less(a, b) && Less(b, a)) && !Less(a, a)
  {
  }

  lemma {:induction false} InsertSortedMembers(s: seq<Point>, p: Point)
    ensures Members(InsertSorted(s, p)) == Members(s) + {p}
    decreases |s|
  {
    if s != [] && !Less(p, s[0]) && p != s[0] {
      InsertSortedMembers(s[1..], p);
      assert s == [s[0]] + s[1..];
      assert Members(s) == {s[0]} + Members(s[1..]);
      assert Members([s[0]] + InsertSorted(s[1..], p)) == {s[0]} + Members(InsertSorted(s[1..], p));
    }
  }

  lemma {:induction false} InsertSortedSorted(s: seq<Point>, p: Point)
    requires Sorted(s)
    ensures Sorted(InsertSorted(s, p))
    decreases |s|
  {
    if s == [] {
    } else if Less(p, s[0]) {
      var r := [p] + s;
      forall i, j | 0 <= i < j < |r| ensures Less(r[i], r[j]) {
        if i == 0 && j > 1 {
          assert Less(s[0], s[j - 1]);
        }
      }
    } else if p != s[0] {
      LessTrichotomy(p, s[0]);
      var tail := InsertSorted(s[1..], p);
      InsertSortedSorted(s[1..], p);
      InsertSortedMembers(s[1..], p);
      var r := [s[0]] + tail;
      forall i, j | 0 <= i < j < |r| ensures Less(r[i], r[j]) {
        if i == 0 {
          assert r[j] == tail[j - 1] && tail[j - 1] in Members(tail);
        }
      }
    }
  }

  lemma {:induction false} InsertSortedLength(s: seq<Point>, p: Point)
    ensures p !in s ==> |InsertSorted(s, p)| == |s| + 1
    decreases |s|
  {
    if s != [] && !Less(p, s[0]) && p != s[0] {
      InsertSortedLength(s[1..], p);
      assert s == [s[0]] + s[1..];
    }
  }

  /** A sorted sequence repeats nothing, so its length is the set's size. */
  lemma {:induction false} SortedCount(s: seq<Point>)
    requires Sorted(s)
    ensures |Members(s)| == |s|
  {
    if s != [] {
      var init := s[..|s| - 1];
      assert Sorted(init);
      SortedCount(init);
      assert s == init + [s[|s| - 1]];
      assert Members(s) == Members(init) + {s[|s| - 1]};
      forall k | 0 <= k < |init| ensures init[k] != s[|s| - 1] {
        assert Less(s[k], s[|s| - 1]);
      }
    }
  }

  /** The result of `range` holds exactly the members inside `rect`. */
  lemma {:induction false} FilterMembers(s: seq<Point>, rect: Rect)
    ensures forall x :: x in Filter(s, rect) <==> x in s && Contains(rect, x)
  {
    if s != [] {
      var init := s[..|s| - 1];
      FilterMembers(init, rect);
      assert s == init + [s[|s| - 1]];
    }
  }

  /** ... and keeps the set's order, so it repeats nothing. */
  lemma {:induction false} FilterSorted(s: seq<Point>, rect: Rect)
    requires Sorted(s)
    ensures Sorted(Filter(s, rect))
  {
    if s != [] {
      var init := s[..|s| - 1];
      var last := s[|s| - 1];
      assert Sorted(init);
      FilterSorted(init, rect);
      FilterMembers(init, rect);
      var f := Filter(init, rect);
      if Contains(rect, last) {
        var r := f + [last];
        forall i, j | 0 <= i < j < |r| ensures Less(r[i], r[j]) {
          if j == |f| {
            assert r[i] == f[i] && f[i] in init;
            var k :| 0 <= k < |init| && init[k] == f[i];
            assert s[k] == init[k];
          } else {
            assert r[i] == f[i] && r[j] == f[j];
          }
        }
      }
    }
  }

  /** `Scan` returns the running best or a point of the scanned part that
      is strictly closer than it, and no scanned point is strictly closer
      than the result. */
  lemma {:induction false} ScanIsMinimum(s: seq<Point>, q: Point, best: Point)
    ensures Scan(s, q, best) == best || Scan(s, q, best) in s
    ensures DistSq(Scan(s, q, best), q) <= DistSq(best, q)
    ensures forall x | x in s :: DistSq(Scan(s, q, best), q) <= DistSq(x, q)
  {
    if s != [] {
      var next := if DistSq(s[0], q) < DistSq(best, q) then s[0] else best;
      ScanIsMinimum(s[1..], q, next);
      assert s == [s[0]] + s[1..];
    }
  }

  /** The strict `<` keeps the first minimum: a point that comes before
      the result in set order, or the running best, is strictly farther. */
  lemma {:induction false} ScanIsFirst(s: seq<Point>, q: Point, best: Point)
    requires Sorted(s)
    requires forall x | x in s :: x == best || Less(best, x)
    ensures forall x | (x in s || x == best) && Less(x, Scan(s, q, best)) ::
      DistSq(Scan(s, q, best), q) < DistSq(x, q)
  {
    if s != [] {
      var r := Scan(s, q, best);
      var next := if DistSq(s[0], q) < DistSq(best, q) then s[0] else best;
      var tail := s[1..];
      assert Sorted(tail);
      forall x | x in tail ensures x == next || Less(next, x) {
        var k :| 0 <= k < |tail| && tail[k] == x;
        assert s[k + 1] == x;
      }
      ScanIsFirst(tail, q, next);
      ScanIsMinimum(tail, q, next);
      ScanBeats(tail, q, next);
      assert s == [s[0]] + tail;
      LessTrichotomy(best, s[0]);
    }
  }

  /** A result other than the running best is strictly closer than it. */
  lemma {:induction false} ScanBeats(s: seq<Point>, q: Point, best: Point)
    ensures Scan(s, q, best) == best || DistSq(Scan(s, q, best), q) < DistSq(best, q)
  {
    if s != [] {
      var next := if DistSq(s[0], q) < DistSq(best, q) then s[0] else best;
      ScanBeats(s[1..], q, next);
    }
  }

  /** `nearest`: `null` exactly on the empty set; otherwise a member at
      minimal squared distance, and every member before it in set order is
      strictly farther. */
  lemma NearestOfIsFirstNearest(s: seq<Point>, q: Point)
    requires Sorted(s)
    ensures NearestOf(s, q).None? <==> s == []
    ensures NearestOf(s, q).Some? ==>
      && NearestOf(s, q).value in s
      && (forall x | x in s :: DistSq(NearestOf(s, q).value, q) <= DistSq(x, q))
      && (forall x | x in s && Less(x, NearestOf(s, q).value) ::
            DistSq(NearestOf(s, q).value, q) < DistSq(x, q))
  {
    if s != [] {
      ScanIsMinimum(s, q, s[0]);
      forall x | x in s ensures x == s[0] || Less(s[0], x) {
        var k :| 0 <= k < |s| && s[k] == x;
        if k > 0 {
          assert Less(s[0], s[k]);
        }
      }
      ScanIsFirst(s, q, s[0]);
    }
  }

  class PointSet {
    /** The points in iteration order. */
    var points: seq<Point>

    ghost predicate Valid()
      reads this
    {
      Sorted(points)
    }

    /** The points as a set, the abstraction every client sees. */
    function Elems(): set<Point>
      reads this
    {
      Members(points)
    }

    constructor ()
      ensures Valid() && points == [] && Elems() == {}
    {
      points := [];
    }

    function IsEmpty(): (b: bool)
      reads this
      ensures b <==> Elems() == {}
    {
      assert points != [] ==> points[0] in Elems();
      points == []
    }

    function Size(): (n: nat)
      reads this
      requires Valid()
      ensures n == |Elems()|
      ensures n == 0 <==> IsEmpty()
    {
      SortedCount(points);
      |points|
    }

    method Insert(p: Point)
      requires Valid()
      modifies this
      ensures Valid()
      ensures p in old(Elems()) ==> points == old(points)
      ensures p !in old(Elems()) ==> points == InsertSorted(old(points), p)
      ensures Elems() == old(Elems()) + {p}
      ensures p in old(Elems()) ==> Size() == old(Size())
      ensures p !in old(Elems()) ==> Size() == old(Size()) + 1
    {
      InsertSortedSorted(points, p);
      InsertSortedMembers(points, p);
      InsertSortedLength(points, p);
      SortedCount(points);
      if !Contains(p) {
        points := InsertSorted(points, p);
        SortedCount(points);
      }
    }

    function Contains(p: Point): (b: bool)
      reads this
      ensures b <==> p in Elems()
    {
      p in points
    }

    method Range(rect: RectHV) returns (range: seq<Point>)
      requires Valid()
      ensures range == Filter(points, rect)
      ensures forall x :: x in range <==> x in Elems() && Geometry.Contains(rect, x)
      ensures Sorted(range)
    {
      range := [];
      for i := 0 to |points|
        invariant range == Filter(points[..i], rect)
      {
        assert points[..i + 1][..i] == points[..i];
        if Geometry.Contains(rect, points[i]) {
          range := range + [points[i]];
        }
      }
      assert points[..|points|] == points;
      FilterMembers(points, rect);
      FilterSorted(points, rect);
    }

    method Nearest(q: Point) returns (r: Option<Point>)
      requires Valid()
      ensures r == NearestOf(points, q)
      ensures r.None? <==> Elems() == {}
      ensures r.Some? ==>
        && r.value in Elems()
        && (forall x | x in Elems() :: DistSq(r.value, q) <= DistSq(x, q))
        && (forall x | x in Elems() && Less(x, r.value) :: DistSq(r.value, q) < DistSq(x, q))
    {
      NearestOfIsFirstNearest(points, q);
      assert points != [] ==> points[0] in Elems();
      if points == [] {
        return None;
      }
      var minPoint := points[0];
      var minDistance := DistSq(minPoint, q);
      for i := 0 to |points|
        invariant minDistance == DistSq(minPoint, q)
        invariant Scan(points[i..], q, minPoint) == Scan(points, q, points[0])
      {
        assert points[i..][1..] == points[i + 1..];
        var currDistance := DistSq(points[i], q);
        if currDistance < minDistance {
          minPoint := points[i];
          minDistance := currDistance;
        }
      }
      return Some(minPoint);
    }
  }
}
