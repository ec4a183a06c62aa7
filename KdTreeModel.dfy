/** The 2-d tree of KdTree.java as a value: the shape its `insert` builds,
    and the searches `contains`, `range` and `nearest` perform on it, stated
    as functions.  The heap classes in KdTree.dfy are proved against these
    functions; the properties the tree promises are proved here.

    Two places of the Java code do not do what the design intends (see the
    Findings of the README).  Where they matter the definitions take a
    `Code` argument: `AsWritten` follows the Java text, `Corrected` the
    evident intent, which is what the heap classes implement. */
module KdTreeModel {
  import opened Common
  import opened Geometry

  /** A node holds its point, the region fixed when it was created, the
      `lb` and `rt` subtrees and its splitting direction.  Although named
      left/bottom, `lb` receives the points whose splitting coordinate is
      GREATER than the node's, and `rt` the others. */
  datatype Tree =
    | Leaf
    | Branch(p: Point, rect: RectHV, lb: Tree, rt: Tree, isVertical: bool)

  datatype Code = AsWritten | Corrected

  /** The coordinate a node with this direction splits on. */
  function Coord(p: Point, vertical: bool): real {
    if vertical then p.x else p.y
  }

  /** The bounds of a rectangle along the splitting axis. */
  function Lo(r: Rect, vertical: bool): real {
    if vertical then r.xmin else r.ymin
  }

  function Hi(r: Rect, vertical: bool): real {
    if vertical then r.xmax else r.ymax
  }

  /** `compare(node, p)`: `Double.compare` of the node's splitting
      coordinate with the same coordinate of `p`. */
  function Compare(node: Point, vertical: bool, p: Point): (c: int)
    ensures c < 0 <==> Coord(node, vertical) < Coord(p, vertical)
    ensures c == 0 <==> Coord(node, vertical) == Coord(p, vertical)
    ensures -1 <= c <= 1
  {
    var a, b := Coord(node, vertical), Coord(p, vertical);
    if a < b then -1 else if a == b then 0 else 1
  }

  /** Elements and node count. */
  function Elems(t: Tree): set<Point> {
    match t
    case Leaf => {}
    case Branch(q, _, lb, rt, _) => {q} + Elems(lb) + Elems(rt)
  }

  function NodeCount(t: Tree): nat {
    match t
    case Leaf => 0
    case Branch(_, _, lb, rt, _) => 1 + NodeCount(lb) + NodeCount(rt)
  }

  // ---------------------------------------------------------------------
  // Regions of new nodes (getSubRect)
  // ---------------------------------------------------------------------

  /** `region` cut at `at` along the splitting axis, keeping the lower or
      the upper side; bounds that come out reversed are swapped back, as
      `getSubRect` does before building its `RectHV`. */
  function Cut(region: RectHV, vertical: bool, at: real, lower: bool): RectHV {
    if vertical then
      var lo := if lower then region.xmin else at;
      var hi := if lower then at else region.xmax;
      if hi < lo then Rect(hi, region.ymin, lo, region.ymax)
      else Rect(lo, region.ymin, hi, region.ymax)
    else
      var lo := if lower then region.ymin else at;
      var hi := if lower then at else region.ymax;
      if hi < lo then Rect(region.xmin, hi, region.xmax, lo)
      else Rect(region.xmin, lo, region.xmax, hi)
  }

  /** `getSubRect(parentNode, p)` as written: the lower half only when p's
      coordinate is strictly below the parent's, so a tie gets the upper
      half although `insert` sends it to `rt` with the smaller values. */
  function GetSubRect(parent: Point, region: RectHV, vertical: bool, p: Point): RectHV {
    Cut(region, vertical, Coord(parent, vertical), Compare(p, vertical, parent) < 0)
  }

  /** The corrected rule: the lower half for every point that `insert`
      sends to `rt`, ties included. */
  function SubRect(parent: Point, region: RectHV, vertical: bool, p: Point): RectHV {
    Cut(region, vertical, Coord(parent, vertical), Compare(p, vertical, parent) <= 0)
  }

  function ChildRect(code: Code, parent: Point, region: RectHV, vertical: bool, p: Point): RectHV {
    match code
    case AsWritten => GetSubRect(parent, region, vertical, p)
    case Corrected => SubRect(parent, region, vertical, p)
  }

  /** A cut keeps the other axis and, when the cut line crosses the region,
      is exactly the half on the requested side. */
  lemma CutIsHalf(region: RectHV, vertical: bool, at: real, lower: bool)
    requires Lo(region, vertical) <= at <= Hi(region, vertical)
    ensures var c := Cut(region, vertical, at, lower);
      && Lo(c, !vertical) == Lo(region, !vertical)
      && Hi(c, !vertical) == Hi(region, !vertical)
      && Lo(c, vertical) == (if lower then Lo(region, vertical) else at)
      && Hi(c, vertical) == (if lower then at else Hi(region, vertical))
  {
  }

  /** The two halves of a region cover it and overlap only on the cut line
      (the partition invariant of the design). */
  lemma CutPartitions(region: RectHV, vertical: bool, at: real, r: Point)
    requires Lo(region, vertical) <= at <= Hi(region, vertical)
    ensures Contains(region, r) <==>
      Contains(Cut(region, vertical, at, true), r) || Contains(Cut(region, vertical, at, false), r)
    ensures Contains(Cut(region, vertical, at, true), r) && Contains(Cut(region, vertical, at, false), r)
      ==> Coord(r, vertical) == at
  {
  }

  /** A point of the region on the kept side lies in the cut, wherever the
      cut line falls. */
  lemma CutKeepsSide(region: RectHV, vertical: bool, at: real, lower: bool, r: Point)
    requires Contains(region, r)
    requires lower ==> Coord(r, vertical) <= at
    requires !lower ==> at <= Coord(r, vertical)
    ensures Contains(Cut(region, vertical, at, lower), r)
  {
  }

  // ---------------------------------------------------------------------
  // Insertion (insert, KdTree.java:46-49 and 80-102)
  // ---------------------------------------------------------------------

  /** `insert(node, parentNode, isVertical, p)` where `region` is the region
      a node created here would get: the unit square at the root, the
      parent's cut below it. */
  function Insert(t: Tree, region: RectHV, vertical: bool, p: Point, code: Code): Tree {
    match t
    case Leaf => Branch(p, region, Leaf, Leaf, vertical)
    case Branch(q, r, lb, rt, v) =>
      if q == p then t
      else if Compare(q, v, p) < 0 then
        Branch(q, r, Insert(lb, ChildRect(code, q, r, v, p), !v, p, code), rt, v)
      else
        Branch(q, r, lb, Insert(rt, ChildRect(code, q, r, v, p), !v, p, code), v)
  }

  /** The public `insert(p)` for a non-null `p`: a vertical root over the
      unit square. */
  function Add(t: Tree, p: Point, code: Code): Tree {
    Insert(t, Unit, true, p, code)
  }

  // ---------------------------------------------------------------------
  // Invariants
  // ---------------------------------------------------------------------

  /** Every child splits on the other axis than its parent. */
  ghost predicate Alternates(t: Tree, vertical: bool) {
    t.Branch? ==>
      t.isVertical == vertical && Alternates(t.lb, !vertical) && Alternates(t.rt, !vertical)
  }

  /** Every point of `t` has its `v` coordinate strictly above `c`. */
  ghost predicate Above(t: Tree, v: bool, c: real) {
    t.Branch? ==> c < Coord(t.p, v) && Above(t.lb, v, c) && Above(t.rt, v, c)
  }

  /** Every point of `t` has its `v` coordinate at most `c`. */
  ghost predicate AtMost(t: Tree, v: bool, c: real) {
    t.Branch? ==> Coord(t.p, v) <= c && AtMost(t.lb, v, c) && AtMost(t.rt, v, c)
  }

  /** Every point of `t` lies in `rect`. */
  ghost predicate Inside(t: Tree, rect: Rect) {
    t.Branch? ==> Contains(rect, t.p) && Inside(t.lb, rect) && Inside(t.rt, rect)
  }

  /** `lb` holds the strictly greater, `rt` the smaller or equal splitting
      coordinates. */
  ghost predicate Ordered(t: Tree) {
    t.Branch? ==>
      && Above(t.lb, t.isVertical, Coord(t.p, t.isVertical))
      && AtMost(t.rt, t.isVertical, Coord(t.p, t.isVertical))
      && Ordered(t.lb) && Ordered(t.rt)
  }

  /** Each child's region is its parent's region cut at the parent's point:
      the upper part for `lb`, the lower one for `rt`. */
  ghost predicate Partitioned(t: Tree) {
    t.Branch? ==>
      && (t.lb.Branch? ==> t.lb.rect == Cut(t.rect, t.isVertical, Coord(t.p, t.isVertical), false))
      && (t.rt.Branch? ==> t.rt.rect == Cut(t.rect, t.isVertical, Coord(t.p, t.isVertical), true))
      && Partitioned(t.lb) && Partitioned(t.rt)
  }

  /** Every node's region contains all points of its subtree. */
  ghost predicate RegionsOk(t: Tree) {
    t.Branch? ==> Inside(t, t.rect) && RegionsOk(t.lb) && RegionsOk(t.rt)
  }

  /** No node's point occurs again in its `rt` subtree (in `lb` it cannot,
      by `Ordered`), so every point is stored once. */
  ghost predicate Distinct(t: Tree) {
    t.Branch? ==> t.p !in Elems(t.rt) && Distinct(t.lb) && Distinct(t.rt)
  }

  /** What every tree built by the corrected `insert` satisfies. */
  ghost predicate Invariant(t: Tree) {
    && (t.Branch? ==> t.rect == Unit)
    && Alternates(t, true)
    && Ordered(t)
    && Partitioned(t)
    && Distinct(t)
    && (Inside(t, Unit) ==> RegionsOk(t))
  }

  /** `p` meets no node on its insertion path whose splitting coordinate
      equals its own. */
  ghost predicate NoTieOnPath(t: Tree, p: Point) {
    t.Branch? ==>
      t.p == p ||
      (Coord(t.p, t.isVertical) != Coord(p, t.isVertical) &&
       NoTieOnPath(if Compare(t.p, t.isVertical, p) < 0 then t.lb else t.rt, p))
  }

  /** The bound predicates say what their names say about the elements. */
  lemma {:induction false} InsideMeans(t: Tree, rect: Rect)
    ensures Inside(t, rect) <==> forall x | x in Elems(t) :: Contains(rect, x)
  {
    match t
    case Leaf =>
    case Branch(q, _, lb, rt, _) =>
      InsideMeans(lb, rect);
      InsideMeans(rt, rect);
  }

  lemma {:induction false} AboveExcludes(t: Tree, v: bool, c: real, x: Point)
    requires Above(t, v, c) && Coord(x, v) <= c
    ensures x !in Elems(t)
  {
    match t
    case Leaf =>
    case Branch(_, _, lb, rt, _) =>
      AboveExcludes(lb, v, c, x);
      AboveExcludes(rt, v, c, x);
  }

  lemma {:induction false} AboveMeans(t: Tree, v: bool, c: real)
    ensures Above(t, v, c) <==> forall x | x in Elems(t) :: c < Coord(x, v)
  {
    match t
    case Leaf =>
    case Branch(_, _, lb, rt, _) =>
      AboveMeans(lb, v, c);
      AboveMeans(rt, v, c);
  }

  lemma {:induction false} AtMostExcludes(t: Tree, v: bool, c: real, x: Point)
    requires AtMost(t, v, c) && c < Coord(x, v)
    ensures x !in Elems(t)
  {
    match t
    case Leaf =>
    case Branch(_, _, lb, rt, _) =>
      AtMostExcludes(lb, v, c, x);
      AtMostExcludes(rt, v, c, x);
  }

  // ---------------------------------------------------------------------
  // Insertion lemmas
  // ---------------------------------------------------------------------

  /** An insert adds `p` (a no-op when it is already stored), whatever the
      rule for regions. */
  lemma {:induction false} InsertElems(t: Tree, region: RectHV, vertical: bool, p: Point, code: Code)
    ensures Elems(Insert(t, region, vertical, p, code)) == Elems(t) + {p}
  {
    match t
    case Leaf =>
    case Branch(q, r, lb, rt, v) =>
      if q == p {
      } else if Compare(q, v, p) < 0 {
        InsertElems(lb, ChildRect(code, q, r, v, p), !v, p, code);
      } else {
        InsertElems(rt, ChildRect(code, q, r, v, p), !v, p, code);
      }
  }

  /** Inserting a stored point changes nothing; inserting a new one adds
      one node. */
  lemma {:induction false} InsertSize(t: Tree, region: RectHV, vertical: bool, p: Point, code: Code)
    requires Ordered(t)
    ensures NodeCount(Insert(t, region, vertical, p, code)) == NodeCount(t) + (if p in Elems(t) then 0 else 1)
  {
    match t
    case Leaf =>
    case Branch(q, r, lb, rt, v) =>
      if q == p {
      } else if Compare(q, v, p) < 0 {
        InsertSize(lb, ChildRect(code, q, r, v, p), !v, p, code);
        AtMostExcludes(rt, v, Coord(q, v), p);
      } else {
        InsertSize(rt, ChildRect(code, q, r, v, p), !v, p, code);
        AboveExcludes(lb, v, Coord(q, v), p);
      }
  }

  lemma {:induction false} InsertDistinct(t: Tree, region: RectHV, vertical: bool, p: Point, code: Code)
    requires Distinct(t)
    ensures Distinct(Insert(t, region, vertical, p, code))
  {
    match t
    case Leaf =>
    case Branch(q, r, lb, rt, v) =>
      if q == p {
      } else if Compare(q, v, p) < 0 {
        InsertDistinct(lb, ChildRect(code, q, r, v, p), !v, p, code);
      } else {
        InsertDistinct(rt, ChildRect(code, q, r, v, p), !v, p, code);
        InsertElems(rt, ChildRect(code, q, r, v, p), !v, p, code);
      }
  }

  /** In an ordered tree without repeated points the node count is the
      number of points. */
  lemma {:induction false} SizeIsCount(t: Tree)
    requires Ordered(t) && Distinct(t)
    ensures NodeCount(t) == |Elems(t)|
  {
    match t
    case Leaf =>
    case Branch(q, _, lb, rt, v) =>
      SizeIsCount(lb);
      SizeIsCount(rt);
      ChildrenDisjoint(t);
      assert {q} !! Elems(lb) + Elems(rt);
  }

  /** The root of a non-empty tree keeps its point, region and direction. */
  lemma InsertKeepsRoot(t: Tree, region: RectHV, vertical: bool, p: Point, code: Code)
    ensures Insert(t, region, vertical, p, code).Branch?
    ensures t.Branch? ==> var u := Insert(t, region, vertical, p, code);
      u.p == t.p && u.rect == t.rect && u.isVertical == t.isVertical
    ensures t.Leaf? ==> Insert(t, region, vertical, p, code) == Branch(p, region, Leaf, Leaf, vertical)
  {
  }

  /** The bounds of a tree hold after an insert exactly when they hold
      before and for the inserted point. */
  lemma {:induction false} InsertBounds(t: Tree, region: RectHV, vertical: bool, p: Point, code: Code,
                                       v: bool, c: real, rect: Rect)
    ensures Above(Insert(t, region, vertical, p, code), v, c) <==> Above(t, v, c) && c < Coord(p, v)
    ensures AtMost(Insert(t, region, vertical, p, code), v, c) <==> AtMost(t, v, c) && Coord(p, v) <= c
    ensures Inside(Insert(t, region, vertical, p, code), rect) <==> Inside(t, rect) && Contains(rect, p)
  {
    match t
    case Leaf =>
    case Branch(q, r, lb, rt, w) =>
      if q == p {
      } else if Compare(q, w, p) < 0 {
        InsertBounds(lb, ChildRect(code, q, r, w, p), !w, p, code, v, c, rect);
      } else {
        InsertBounds(rt, ChildRect(code, q, r, w, p), !w, p, code, v, c, rect);
      }
  }

  lemma {:induction false} InsertOrdered(t: Tree, region: RectHV, vertical: bool, p: Point, code: Code)
    requires Ordered(t)
    ensures Ordered(Insert(t, region, vertical, p, code))
  {
    match t
    case Leaf =>
    case Branch(q, r, lb, rt, v) =>
      if q == p {
      } else if Compare(q, v, p) < 0 {
        InsertOrdered(lb, ChildRect(code, q, r, v, p), !v, p, code);
        InsertBounds(lb, ChildRect(code, q, r, v, p), !v, p, code, v, Coord(q, v), Unit);
      } else {
        InsertOrdered(rt, ChildRect(code, q, r, v, p), !v, p, code);
        InsertBounds(rt, ChildRect(code, q, r, v, p), !v, p, code, v, Coord(q, v), Unit);
      }
  }

  lemma {:induction false} InsertAlternates(t: Tree, region: RectHV, vertical: bool, p: Point, code: Code)
    requires Alternates(t, vertical)
    ensures Alternates(Insert(t, region, vertical, p, code), vertical)
  {
    match t
    case Leaf =>
    case Branch(q, r, lb, rt, v) =>
      if q == p {
      } else if Compare(q, v, p) < 0 {
        InsertAlternates(lb, ChildRect(code, q, r, v, p), !v, p, code);
      } else {
        InsertAlternates(rt, ChildRect(code, q, r, v, p), !v, p, code);
      }
  }

  /** With the corrected rule every new child gets the half of its parent
      on its own side. */
  lemma {:induction false} InsertPartitioned(t: Tree, region: RectHV, vertical: bool, p: Point)
    requires Partitioned(t)
    ensures Partitioned(Insert(t, region, vertical, p, Corrected))
  {
    match t
    case Leaf =>
    case Branch(q, r, lb, rt, v) =>
      if q == p {
      } else if Compare(q, v, p) < 0 {
        InsertPartitioned(lb, SubRect(q, r, v, p), !v, p);
        InsertKeepsRoot(lb, SubRect(q, r, v, p), !v, p, Corrected);
      } else {
        InsertPartitioned(rt, SubRect(q, r, v, p), !v, p);
        InsertKeepsRoot(rt, SubRect(q, r, v, p), !v, p, Corrected);
      }
  }

  /** With the corrected rule a point of the region it enters stays inside
      the region of every node on its path, so regions keep containing
      their subtrees. */
  lemma {:induction false} InsertRegions(t: Tree, region: RectHV, vertical: bool, p: Point)
    requires Ordered(t) && Partitioned(t) && RegionsOk(t)
    requires Contains(if t.Leaf? then region else t.rect, p)
    ensures RegionsOk(Insert(t, region, vertical, p, Corrected))
  {
    match t
    case Leaf =>
    case Branch(q, r, lb, rt, v) =>
      InsertBounds(t, region, vertical, p, Corrected, v, 0.0, r);
      if q == p {
      } else if Compare(q, v, p) < 0 {
        CutKeepsSide(r, v, Coord(q, v), false, p);
        InsertRegions(lb, SubRect(q, r, v, p), !v, p);
      } else {
        CutKeepsSide(r, v, Coord(q, v), true, p);
        InsertRegions(rt, SubRect(q, r, v, p), !v, p);
      }
  }

  /** The public insert keeps every invariant and adds `p` iff it is absent. */
  lemma AddKeepsInvariant(t: Tree, p: Point)
    requires Invariant(t)
    ensures Invariant(Add(t, p, Corrected))
    ensures Elems(Add(t, p, Corrected)) == Elems(t) + {p}
    ensures NodeCount(Add(t, p, Corrected)) == NodeCount(t) + (if p in Elems(t) then 0 else 1)
  {
    var u := Add(t, p, Corrected);
    InsertElems(t, Unit, true, p, Corrected);
    InsertSize(t, Unit, true, p, Corrected);
    InsertDistinct(t, Unit, true, p, Corrected);
    InsertOrdered(t, Unit, true, p, Corrected);
    InsertAlternates(t, Unit, true, p, Corrected);
    InsertPartitioned(t, Unit, true, p);
    InsertKeepsRoot(t, Unit, true, p, Corrected);
    InsertBounds(t, Unit, true, p, Corrected, true, 0.0, Unit);
    if Inside(u, Unit) {
      InsertRegions(t, Unit, true, p);
    }
  }

  /** Without ties on the insertion path, the code as written builds the
      same tree as the corrected code. */
  lemma {:induction false} AsWrittenAgreesWithoutTies(t: Tree, region: RectHV, vertical: bool, p: Point)
    requires NoTieOnPath(t, p)
    ensures Insert(t, region, vertical, p, AsWritten) == Insert(t, region, vertical, p, Corrected)
  {
    match t
    case Leaf =>
    case Branch(q, r, lb, rt, v) =>
      if q == p {
      } else {
        assert GetSubRect(q, r, v, p) == SubRect(q, r, v, p);
        if Compare(q, v, p) < 0 {
          AsWrittenAgreesWithoutTies(lb, SubRect(q, r, v, p), !v, p);
        } else {
          AsWrittenAgreesWithoutTies(rt, SubRect(q, r, v, p), !v, p);
        }
      }
  }

  /** Hence, for the code as written: a unit-square point that ties no
      node on its path keeps every region containing its subtree. */
  lemma AsWrittenKeepsRegionsWithoutTies(t: Tree, p: Point)
    requires Invariant(t) && Inside(t, Unit)
    requires Contains(Unit, p) && NoTieOnPath(t, p)
    ensures Add(t, p, AsWritten) == Add(t, p, Corrected)
    ensures RegionsOk(Add(t, p, AsWritten)) && Partitioned(Add(t, p, AsWritten))
  {
    AsWrittenAgreesWithoutTies(t, Unit, true, p);
    AddKeepsInvariant(t, p);
    InsertBounds(t, Unit, true, p, Corrected, true, 0.0, Unit);
  }

  // ---------------------------------------------------------------------
  // Range search (range, KdTree.java:158-191)
  // ---------------------------------------------------------------------

  /** The first test of the loop body: the node's split line crosses the
      query's extent.  Its second half holds for every well-formed query. */
  predicate Straddles(q: Point, region: Rect, vertical: bool, rect: Rect) {
    && Lo(rect, vertical) <= Coord(q, vertical) <= Hi(rect, vertical)
    && (Lo(rect, !vertical) <= Hi(region, !vertical) || Hi(rect, !vertical) >= Lo(region, !vertical))
  }

  /** The points the work-list search reports from the subtree `t`: a
      straddling node reports its own point if the query contains it and
      queues both children; a node whose region meets the query but whose
      line misses it queues one child.  As written, that child is `rt` when
      the query lies above the line, the side whose points are in `lb`. */
  function Found(t: Tree, rect: RectHV, code: Code): set<Point> {
    match t
    case Leaf => {}
    case Branch(q, r, lb, rt, v) =>
      (if Straddles(q, r, v, rect) then
         Found(lb, rect, code) + Found(rt, rect, code)
         + (if Contains(rect, q) then {q} else {})
       else {})
      +
      (if Intersects(r, rect) then
         if Coord(q, v) < Lo(rect, v) then Found(if code == AsWritten then rt else lb, rect, code)
         else if Coord(q, v) > Hi(rect, v) then Found(if code == AsWritten then lb else rt, rect, code)
         else {}
       else {})
  }

  /** `m` holds exactly the members of `all` inside `rect`. */
  ghost predicate IsRangeOf(m: set<Point>, all: set<Point>, rect: Rect) {
    forall x :: x in m <==> x in all && Contains(rect, x)
  }

  /** The corrected search reports exactly the stored points inside the
      query, boundary included. */
  lemma {:induction false} FoundIsRange(t: Tree, rect: RectHV)
    requires Ordered(t) && RegionsOk(t)
    ensures IsRangeOf(Found(t, rect, Corrected), Elems(t), rect)
  {
    match t
    case Leaf =>
    case Branch(q, r, lb, rt, v) =>
      FoundIsRange(lb, rect);
      FoundIsRange(rt, rect);
      var f := Found(t, rect, Corrected);
      if Straddles(q, r, v, rect) {
      } else if !Intersects(r, rect) {
        assert f == {};
        forall x | Contains(rect, x) && x in Elems(t) ensures false {
          InsideMeans(t, r);
          IntersectsIffCommonPoint(r, rect);
        }
      } else if Coord(q, v) < Lo(rect, v) {
        assert f == Found(lb, rect, Corrected);
        forall x | Contains(rect, x) ensures x !in Elems(rt) {
          AtMostExcludes(rt, v, Coord(q, v), x);
        }
      } else {
        assert Coord(q, v) > Hi(rect, v);
        assert f == Found(rt, rect, Corrected);
        forall x | Contains(rect, x) ensures x !in Elems(lb) {
          AboveExcludes(lb, v, Coord(q, v), x);
        }
      }
  }

  /** The points a work list of subtrees still contributes, and a measure
      that drops whenever a node is replaced by its children. */
  function FoundAll(todo: seq<Tree>, rect: RectHV): set<Point> {
    if todo == [] then {} else Found(todo[0], rect, Corrected) + FoundAll(todo[1..], rect)
  }

  function ElemsAll(todo: seq<Tree>): set<Point> {
    if todo == [] then {} else Elems(todo[0]) + ElemsAll(todo[1..])
  }

  function Weight(todo: seq<Tree>): nat {
    if todo == [] then 0 else 2 * NodeCount(todo[0]) + 1 + Weight(todo[1..])
  }

  lemma {:induction false} WorkListAppend(a: seq<Tree>, b: seq<Tree>, rect: RectHV)
    ensures FoundAll(a + b, rect) == FoundAll(a, rect) + FoundAll(b, rect)
    ensures ElemsAll(a + b) == ElemsAll(a) + ElemsAll(b)
    ensures Weight(a + b) == Weight(a) + Weight(b)
  {
    if a == [] {
      assert a + b == b;
    } else {
      assert (a + b)[1..] == a[1..] + b;
      WorkListAppend(a[1..], b, rect);
    }
  }

  /** A work list of subtrees that are ordered, free of repeated points
      and pairwise disjoint. */
  ghost predicate Pending(todo: seq<Tree>) {
    todo != [] ==>
      && Ordered(todo[0]) && Distinct(todo[0])
      && Elems(todo[0]) !! ElemsAll(todo[1..])
      && Pending(todo[1..])
  }

  lemma {:induction false} PendingAppend(a: seq<Tree>, b: seq<Tree>)
    requires Pending(a) && Pending(b) && ElemsAll(a) !! ElemsAll(b)
    ensures Pending(a + b)
  {
    if a != [] {
      assert (a + b)[1..] == a[1..] + b;
      WorkListAppend(a[1..], b, Unit);
      PendingAppend(a[1..], b);
    } else {
      assert a + b == b;
    }
  }

  /** The children the corrected loop body of `range` queues for a node,
      and the point it reports. */
  function Queued(t: Tree, rect: RectHV): seq<Tree> {
    match t
    case Leaf => []
    case Branch(q, r, lb, rt, v) =>
      if Straddles(q, r, v, rect) then [lb, rt]
      else if Intersects(r, rect) && Coord(q, v) < Lo(rect, v) then [lb]
      else if Intersects(r, rect) && Coord(q, v) > Hi(rect, v) then [rt]
      else []
  }

  function Reported(t: Tree, rect: RectHV): set<Point> {
    if t.Branch? && Straddles(t.p, t.rect, t.isVertical, rect) && Contains(rect, t.p) then {t.p} else {}
  }

  /** One step of the work list: replacing its first subtree by the
      children queued for it keeps the work list well formed, lowers the
      measure, and moves the reported point from the pending points to the
      output. */
  lemma WorkStep(t: Tree, rest: seq<Tree>, rect: RectHV)
    requires Pending([t] + rest)
    ensures Pending(rest + Queued(t, rect))
    ensures Weight(rest + Queued(t, rect)) < Weight([t] + rest)
    ensures FoundAll([t] + rest, rect) == FoundAll(rest + Queued(t, rect), rect) + Reported(t, rect)
    ensures ElemsAll(rest + Queued(t, rect)) + Reported(t, rect) <= ElemsAll([t] + rest)
    ensures Reported(t, rect) !! ElemsAll(rest + Queued(t, rect))
  {
    var added := Queued(t, rect);
    assert ([t] + rest)[1..] == rest;
    WorkListAppend(rest, added, rect);
    QueuedFacts(t, rect);
    PendingAppend(rest, added);
  }

  /** The range loop's bookkeeping after one step: the output stays free
      of repetitions and disjoint from the pending points, and output plus
      pending searches still make up `all`. */
  lemma RangeStep(range: seq<Point>, found: seq<Point>, t: Tree, rest: seq<Tree>, rect: RectHV, all: set<Point>)
    requires Pending([t] + rest) && Unique(range)
    requires forall x | x in range :: x !in ElemsAll([t] + rest)
    requires forall x :: x in all <==> x in range || x in FoundAll([t] + rest, rect)
    requires Unique(found) && forall x :: x in found <==> x in Reported(t, rect)
    ensures Pending(rest + Queued(t, rect)) && Unique(range + found)
    ensures forall x | x in range + found :: x !in ElemsAll(rest + Queued(t, rect))
    ensures forall x :: x in all <==> x in range + found || x in FoundAll(rest + Queued(t, rect), rect)
  {
    WorkStep(t, rest, rect);
    UniqueAppend(range, found);
  }

  /** What one node contributes: its queued children are a well-formed
      work list of its own points minus its point, lighter than the node,
      and together with the reported point they make up what `Found`
      collects from it. */
  lemma QueuedFacts(t: Tree, rect: RectHV)
    requires Ordered(t) && Distinct(t)
    ensures Pending(Queued(t, rect))
    ensures Weight(Queued(t, rect)) < 2 * NodeCount(t) + 1
    ensures ElemsAll(Queued(t, rect)) <= Elems(t)
    ensures t.Branch? ==> t.p !in ElemsAll(Queued(t, rect))
    ensures Found(t, rect, Corrected) == FoundAll(Queued(t, rect), rect) + Reported(t, rect)
    ensures Reported(t, rect) <= Elems(t)
  {
    match t
    case Leaf =>
    case Branch(q, r, lb, rt, v) =>
      ChildrenDisjoint(t);
      OneChild(lb, rect);
      OneChild(rt, rect);
      BothChildren(t, rect);
      QueuedFound(t, rect);
  }

  lemma BothChildren(t: Tree, rect: RectHV)
    requires t.Branch? && Ordered(t) && Distinct(t)
    ensures Pending([t.lb, t.rt])
    ensures ElemsAll([t.lb, t.rt]) == Elems(t.lb) + Elems(t.rt)
    ensures FoundAll([t.lb, t.rt], rect) == Found(t.lb, rect, Corrected) + Found(t.rt, rect, Corrected)
    ensures Weight([t.lb, t.rt]) == 2 * NodeCount(t.lb) + 2 * NodeCount(t.rt) + 2
  {
    ChildrenDisjoint(t);
    OneChild(t.rt, rect);
    assert [t.lb, t.rt][1..] == [t.rt];
  }

  lemma QueuedFound(t: Tree, rect: RectHV)
    requires t.Branch?
    ensures Found(t, rect, Corrected) == FoundAll(Queued(t, rect), rect) + Reported(t, rect)
  {
    OneChild(t.lb, rect);
    OneChild(t.rt, rect);
    assert [t.lb, t.rt][1..] == [t.rt];
  }

  lemma OneChild(c: Tree, rect: RectHV)
    ensures ElemsAll([c]) == Elems(c) && FoundAll([c], rect) == Found(c, rect, Corrected)
    ensures Weight([c]) == 2 * NodeCount(c) + 1
    ensures Ordered(c) && Distinct(c) ==> Pending([c])
  {
    assert [c][1..] == [];
  }

  /** Every point the corrected search reports is stored in the subtree. */
  lemma {:induction false} FoundInElems(t: Tree, rect: RectHV)
    ensures Found(t, rect, Corrected) <= Elems(t)
  {
    match t
    case Leaf =>
    case Branch(_, _, lb, rt, _) =>
      FoundInElems(lb, rect);
      FoundInElems(rt, rect);
  }

  /** The subtrees of an ordered node without repeated points hold
      disjoint point sets, neither holding the node's own point. */
  lemma ChildrenDisjoint(t: Tree)
    requires t.Branch? && Ordered(t) && Distinct(t)
    ensures Elems(t.lb) !! Elems(t.rt)
    ensures t.p !in Elems(t.lb) && t.p !in Elems(t.rt)
  {
    var v, c := t.isVertical, Coord(t.p, t.isVertical);
    AboveExcludes(t.lb, v, c, t.p);
    AboveMeans(t.lb, v, c);
    forall x | x in Elems(t.lb) ensures x !in Elems(t.rt) {
      AtMostExcludes(t.rt, v, c, x);
    }
  }

  /** The search as written misses points: after inserting (0.5, 0.5) and
      (0.75, 0.5), the query [0.6, 0.9] x [0.4, 0.6] reports nothing,
      although (0.75, 0.5) is stored, lies inside it, and every invariant
      holds. */
  lemma RangeAsWrittenMissesPoint()
    ensures var t := Add(Add(Leaf, Point(0.5, 0.5), AsWritten), Point(0.75, 0.5), AsWritten);
      var rect: RectHV := Rect(0.6, 0.4, 0.9, 0.6);
      && Invariant(t) && Inside(t, Unit) && RegionsOk(t)
      && Point(0.75, 0.5) in Elems(t) && Contains(rect, Point(0.75, 0.5))
      && Found(t, rect, AsWritten) == {}
      && Found(t, rect, Corrected) == {Point(0.75, 0.5)}
  {
    TwoPointTree();
    TwoPointTreeInvariant();
    TwoPointTreeFound();
  }

  /** The tree of the counterexample above, its invariants and its searches. */
  lemma TwoPointTree()
    ensures Add(Add(Leaf, Point(0.5, 0.5), AsWritten), Point(0.75, 0.5), AsWritten) == TwoPoints()
  {
    assert Add(Leaf, Point(0.5, 0.5), AsWritten) == Branch(Point(0.5, 0.5), Unit, Leaf, Leaf, true);
  }

  function TwoPoints(): Tree {
    Branch(Point(0.5, 0.5), Unit, Branch(Point(0.75, 0.5), Rect(0.5, 0.0, 1.0, 1.0), Leaf, Leaf, false), Leaf, true)
  }

  lemma TwoPointTreeInvariant()
    ensures Invariant(TwoPoints()) && Inside(TwoPoints(), Unit) && RegionsOk(TwoPoints())
    ensures Elems(TwoPoints()) == {Point(0.5, 0.5), Point(0.75, 0.5)}
  {
    var child := Branch(Point(0.75, 0.5), Rect(0.5, 0.0, 1.0, 1.0), Leaf, Leaf, false);
    assert Ordered(child) && Partitioned(child) && RegionsOk(child) && Distinct(child);
    assert Inside(child, Unit);
  }

  lemma TwoPointTreeFound()
    ensures Found(TwoPoints(), Rect(0.6, 0.4, 0.9, 0.6), AsWritten) == {}
    ensures Found(TwoPoints(), Rect(0.6, 0.4, 0.9, 0.6), Corrected) == {Point(0.75, 0.5)}
  {
    var a, b := Point(0.5, 0.5), Point(0.75, 0.5);
    var child := Branch(b, Rect(0.5, 0.0, 1.0, 1.0), Leaf, Leaf, false);
    var rect: RectHV := Rect(0.6, 0.4, 0.9, 0.6);
    assert Found(child, rect, Corrected) == {b};
    assert !Straddles(a, Unit, true, rect) && Intersects(Unit, rect);
  }

  // ---------------------------------------------------------------------
  // Nearest neighbour (nearest, KdTree.java:206-243)
  // ---------------------------------------------------------------------

  /** `nearest(p, node, nearestNode, nearestDist)`: skip a subtree whose
      region is strictly farther than the best distance so far, otherwise
      take the node's point if strictly closer, then search the child that
      `compare` designates first and the other one with the updated best. */
  function NearestFrom(q: Point, t: Tree, best: Point, bestDist: real): Point {
    match t
    case Leaf => best
    case Branch(p, r, lb, rt, v) =>
      if RectDistSq(r, q) > bestDist then best
      else
        var d := DistSq(p, q);
        var b1 := if d < bestDist then p else best;
        var d1 := if d < bestDist then d else bestDist;
        if Compare(p, v, q) > 0 then
          var b2 := NearestFrom(q, lb, b1, d1);
          NearestFrom(q, rt, b2, DistSq(b2, q))
        else
          var b2 := NearestFrom(q, rt, b1, d1);
          NearestFrom(q, lb, b2, DistSq(b2, q))
  }

  /** The public `nearest(p)`: nothing on an empty tree; otherwise the root
      is the first candidate and the side of the root's x-coordinate the
      query falls on decides which subtree is searched first. */
  function Nearest(t: Tree, q: Point): Option<Point> {
    match t
    case Leaf => None
    case Branch(p, _, lb, rt, _) =>
      if q.x < p.x then
        var n := NearestFrom(q, lb, p, DistSq(q, p));
        Some(NearestFrom(q, rt, n, DistSq(q, n)))
      else
        var n := NearestFrom(q, rt, p, DistSq(q, p));
        Some(NearestFrom(q, lb, n, DistSq(q, n)))
  }

  /** Pruning is sound once regions contain their subtrees: the search
      returns the incoming best or a point of the subtree, no farther than
      the incoming best nor than any point of the subtree. */
  lemma {:induction false} NearestFromIsNearest(q: Point, t: Tree, best: Point, bestDist: real)
    requires RegionsOk(t) && bestDist == DistSq(best, q)
    ensures var n := NearestFrom(q, t, best, bestDist);
      && (n == best || n in Elems(t))
      && DistSq(n, q) <= bestDist
      && forall x | x in Elems(t) :: DistSq(n, q) <= DistSq(x, q)
  {
    match t
    case Leaf =>
    case Branch(p, r, lb, rt, v) =>
      if RectDistSq(r, q) > bestDist {
        InsideMeans(t, r);
        forall x | x in Elems(t) ensures bestDist < DistSq(x, q) {
          RectDistAtMostPointDist(r, q, x);
          DistSqSymmetric(q, x);
        }
      } else {
        var d := DistSq(p, q);
        var b1 := if d < bestDist then p else best;
        var d1 := if d < bestDist then d else bestDist;
        var first := if Compare(p, v, q) > 0 then lb else rt;
        var second := if Compare(p, v, q) > 0 then rt else lb;
        NearestFromIsNearest(q, first, b1, d1);
        var b2 := NearestFrom(q, first, b1, d1);
        NearestFromIsNearest(q, second, b2, DistSq(b2, q));
      }
  }

  /** `nearest` returns nothing exactly on the empty tree, and otherwise a
      stored point whose squared distance to the query is minimal. */
  lemma NearestIsNearest(t: Tree, q: Point)
    requires RegionsOk(t)
    ensures Nearest(t, q).None? <==> t.Leaf?
    ensures Nearest(t, q).Some? ==>
      && Nearest(t, q).value in Elems(t)
      && forall x | x in Elems(t) :: DistSq(q, Nearest(t, q).value) <= DistSq(q, x)
  {
    match t
    case Leaf =>
    case Branch(p, _, lb, rt, _) =>
      DistSqSymmetric(q, p);
      var first := if q.x < p.x then lb else rt;
      var second := if q.x < p.x then rt else lb;
      NearestFromIsNearest(q, first, p, DistSq(q, p));
      var n := NearestFrom(q, first, p, DistSq(q, p));
      DistSqSymmetric(q, n);
      NearestFromIsNearest(q, second, n, DistSq(q, n));
      var m := Nearest(t, q).value;
      DistSqSymmetric(q, m);
      forall x | x in Elems(t) ensures DistSq(q, m) <= DistSq(q, x) {
        DistSqSymmetric(q, x);
      }
  }

  /** A tie breaks the code as written: inserting (0.5, 0.5), (0.5, 0.4),
      (0.1, 0.45) and (0.1, 0.3) leaves (0.1, 0.3) outside its own region,
      and `nearest((0.1, 0.3))` returns (0.1, 0.45) although (0.1, 0.3)
      itself is stored. */
  lemma NearestTieCounterexample()
    ensures var c := Point(0.1, 0.3);
      var t := Add(Add(Add(Add(Leaf, Point(0.5, 0.5), AsWritten), Point(0.5, 0.4), AsWritten),
                       Point(0.1, 0.45), AsWritten), c, AsWritten);
      && Inside(t, Unit) && c in Elems(t) && !RegionsOk(t)
      && Nearest(t, c) == Some(Point(0.1, 0.45))
      && DistSq(c, c) < DistSq(c, Point(0.1, 0.45))
  {
    var a, b, y, c := Point(0.5, 0.5), Point(0.5, 0.4), Point(0.1, 0.45), Point(0.1, 0.3);
    var right := Rect(0.5, 0.0, 1.0, 1.0);
    var ny := Branch(y, Rect(0.5, 0.4, 1.0, 1.0), Leaf, Leaf, true);
    var nc := Branch(c, Rect(0.5, 0.0, 1.0, 0.4), Leaf, Leaf, true);
    var t1 := Branch(a, Unit, Leaf, Leaf, true);
    var t2 := Branch(a, Unit, Leaf, Branch(b, right, Leaf, Leaf, false), true);
    var t3 := Branch(a, Unit, Leaf, Branch(b, right, ny, Leaf, false), true);
    var t4 := Branch(a, Unit, Leaf, Branch(b, right, ny, nc, false), true);
    assert Add(Leaf, a, AsWritten) == t1;
    assert Add(t1, b, AsWritten) == t2;
    assert Add(t2, y, AsWritten) == t3;
    assert Add(t3, c, AsWritten) == t4;
    assert Elems(t4) == {a, b, y, c};
    assert !Contains(nc.rect, c);
    assert c in Elems(nc);
    assert !RegionsOk(nc);
    assert DistSq(c, a) == 0.2;
    assert NearestFrom(c, Leaf, a, DistSq(c, a)) == a;
    assert DistSq(b, c) == 0.17;
    assert DistSq(y, c) == 0.0225;
    assert NearestFrom(c, ny, b, 0.17) == y;
    assert NearestFrom(c, nc, y, 0.0225) == y;
    assert NearestFrom(c, t4.rt, a, 0.2) == y;
  }
}
