/** The brute-force `PointSET` is the specification of the 2-d tree: on
    the same points and within the unit square, the tree's `range` finds
    the same points and its `nearest` the same distance. */
module Agreement {
  import opened Common
  import opened Geometry
  import opened KdTreeModel
  import opened PointSets

  /** `KdTree.range` and `PointSET.range` report the same points. */
  lemma RangeAgrees(t: Tree, s: seq<Point>, rect: RectHV)
    requires Invariant(t) && Inside(t, Unit)
    requires Elems(t) == Members(s)
    ensures forall x :: x in Found(t, rect, Corrected) <==> x in Filter(s, rect)
  {
    FoundIsRange(t, rect);
    FilterMembers(s, rect);
  }

  /** `KdTree.nearest` and `PointSET.nearest` are `null` together and
      otherwise return points at the same squared distance; when no two
      points are equally far from the query, they return the same point. */
  lemma NearestAgrees(t: Tree, s: seq<Point>, q: Point)
    requires Invariant(t) && Inside(t, Unit)
    requires Sorted(s) && Elems(t) == Members(s)
    ensures KdTreeModel.Nearest(t, q).None? <==> NearestOf(s, q).None?
    ensures KdTreeModel.Nearest(t, q).Some? && NearestOf(s, q).Some? ==>
      DistSq(q, KdTreeModel.Nearest(t, q).value) == DistSq(NearestOf(s, q).value, q)
    ensures (forall x, y | x in s && y in s && x != y :: DistSq(x, q) != DistSq(y, q)) ==>
      KdTreeModel.Nearest(t, q) == NearestOf(s, q)
  {
    NearestIsNearest(t, q);
    NearestOfIsFirstNearest(s, q);
    if s != [] {
      assert s[0] in Members(s);
    }
    if t.Branch? {
      assert t.p in Elems(t);
      var a := KdTreeModel.Nearest(t, q).value;
      var b := NearestOf(s, q).value;
      assert a in Members(s) && b in Elems(t);
      DistSqSymmetric(q, a);
      DistSqSymmetric(q, b);
    }
  }
}
