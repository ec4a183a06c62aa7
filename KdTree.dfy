/** The mutable 2-d tree of KdTree.java: linked nodes whose `lb`/`rt`
    links `insert` rewires in place, a point counter, and the searches.
    Each node carries the pure `Tree` it represents, so that every method
    is proved against the functions of KdTreeModel. */
module KdTrees {
  import opened Common
  import opened Geometry
  import opened KdTreeModel

  /** A node of the tree (KdTree.java:15-29). */
  class Node {
    const p: Point
    const rect: RectHV
    var lb: Node?
    var rt: Node?
    const isVertical: bool

    ghost var Repr: set<Node>
    ghost var Model: Tree

    ghost predicate Valid()
      reads this, Repr
      decreases Repr
    {
      && this in Repr
      && (lb != null ==>
            lb in Repr && lb.Repr <= Repr && this !in lb.Repr && lb.Valid())
      && (rt != null ==>
            rt in Repr && rt.Repr <= Repr && this !in rt.Repr && rt.Valid())
      && (lb != null && rt != null ==> lb.Repr !! rt.Repr)
      && Model == Branch(p, rect, ModelOf(lb), ModelOf(rt), isVertical)
    }

    constructor (p: Point, rect: RectHV, isVertical: bool)
      ensures Valid() && fresh(Repr)
      ensures Model == Branch(p, rect, Leaf, Leaf, isVertical)
      ensures this.p == p && this.rect == rect && this.isVertical == isVertical
    {
      this.p := p;
      this.rect := rect;
      this.isVertical := isVertical;
      lb := null;
      rt := null;
      Repr := {this};
      Model := Branch(p, rect, Leaf, Leaf, isVertical);
    }
  }

  /** The tree a possibly absent node stands for. */
  ghost function ModelOf(n: Node?): Tree
    reads n
  {
    if n == null then Leaf else n.Model
  }

  ghost function ReprOf(n: Node?): set<Node>
    reads n
  {
    if n == null then {} else n.Repr
  }

  /** The region a node created below `parent` gets: the unit square at
      the root (KdTree.java:84), the parent's cut otherwise. */
  function RegionFor(parent: Node?, p: Point): RectHV {
    if parent == null then Unit else SubRect(parent.p, parent.rect, parent.isVertical, p)
  }

  class KdTree {
    var root: Node?
    var size: int
    ghost var Repr: set<Node>

    ghost function Model(): Tree
      reads this, root
    {
      ModelOf(root)
    }

    ghost predicate Valid()
      reads this, Repr
    {
      && (root == null ==> Repr == {})
      && (root != null ==> root in Repr && Repr == root.Repr && root.Valid())
      && size == NodeCount(Model())
      && Invariant(Model())
    }

    /** An empty set of points (KdTree.java:32-33). */
    constructor ()
      ensures Valid() && fresh(Repr)
      ensures Model() == Leaf
    {
      root := null;
      size := 0;
      Repr := {};
    }

    /** `isEmpty` (KdTree.java:36-38). */
    function IsEmpty(): (b: bool)
      reads this, Repr
      requires Valid()
      ensures b <==> Elems(Model()) == {}
    {
      root == null
    }

    /** `size`: the counter `insert` bumps for each new node is the number of
        distinct points stored (KdTree.java:41-43). */
    function Size(): (n: int)
      reads this, Repr
      requires Valid()
      ensures n == |Elems(Model())|
    {
      SizeIsCount(Model());
      size
    }

    /** `insert(p)`: nothing for a null point, otherwise the point joins the
        set unless it is already there (KdTree.java:46-49). */
    method Insert(p: Option<Point>)
      requires Valid()
      modifies this, Repr
      ensures Valid() && fresh(Repr - old(Repr))
      ensures p.None? ==> Model() == old(Model())
      ensures p.Some? ==> Model() == Add(old(Model()), p.value, Corrected)
      ensures Elems(Model()) == old(Elems(Model())) + (if p.Some? then {p.value} else {})
    {
      if p.None? {
        return;
      }
      ghost var t := Model();
      AddKeepsInvariant(t, p.value);
      InsertSize(t, Unit, true, p.value, Corrected);
      var r := InsertAt(root, null, true, p.value);
      root := r;
      Repr := r.Repr;
    }

    /** The recursive `insert(node, parentNode, isVertical, p)`
        (KdTree.java:80-102): below an absent node a new node is created
        with the region `RegionFor(parent, p)` and counted; an equal point
        stops the descent; otherwise the point descends to the side
        `InsertLb` or `InsertRt` handles. */
    method InsertAt(node: Node?, parent: Node?, isVertical: bool, p: Point) returns (r: Node)
      requires node != null ==> node.Valid()
      modifies this`size, ReprOf(node)
      ensures r.Valid()
      ensures node != null ==> r == node && fresh(r.Repr - old(node.Repr))
      ensures node == null ==> fresh(r.Repr)
      ensures r.Model == KdTreeModel.Insert(old(ModelOf(node)), RegionFor(parent, p), isVertical, p, Corrected)
      ensures size == old(size) + NodeCount(r.Model) - old(NodeCount(ModelOf(node)))
      decreases ReprOf(node), 1
    {
      if node == null {
        size := size + 1;
        var subRect := if parent == null then Unit else SubRect(parent.p, parent.rect, parent.isVertical, p);
        r := new Node(p, subRect, isVertical);
        return;
      }
      if node.p == p {
        return node;
      }
      if Compare(node.p, node.isVertical, p) < 0 {
        InsertLb(node, p);
      } else {
        InsertRt(node, p);
      }
      r := node;
    }

    /** The descent of `insert` into `lb` (KdTree.java:95-96), taken when
        the node's splitting coordinate is smaller than the point's: the
        child link is replaced by the result. */
    method InsertLb(node: Node, p: Point)
      requires node.Valid() && node.p != p && Compare(node.p, node.isVertical, p) < 0
      modifies this`size, node.Repr
      ensures node.Valid() && fresh(node.Repr - old(node.Repr))
      ensures node.Model == KdTreeModel.Insert(old(node.Model), Unit, node.isVertical, p, Corrected)
      ensures size == old(size) + NodeCount(node.Model) - old(NodeCount(node.Model))
      decreases node.Repr, 0
    {
      var n := InsertAt(node.lb, node, !node.isVertical, p);
      node.lb := n;
      node.Repr := node.Repr + n.Repr;
      node.Model := Branch(node.p, node.rect, n.Model, ModelOf(node.rt), node.isVertical);
    }

    /** The descent into `rt` (KdTree.java:97-98), taken otherwise. */
    method InsertRt(node: Node, p: Point)
      requires node.Valid() && node.p != p && Compare(node.p, node.isVertical, p) >= 0
      modifies this`size, node.Repr
      ensures node.Valid() && fresh(node.Repr - old(node.Repr))
      ensures node.Model == KdTreeModel.Insert(old(node.Model), Unit, node.isVertical, p, Corrected)
      ensures size == old(size) + NodeCount(node.Model) - old(NodeCount(node.Model))
      decreases node.Repr, 0
    {
      var n := InsertAt(node.rt, node, !node.isVertical, p);
      node.rt := n;
      node.Repr := node.Repr + n.Repr;
      node.Model := Branch(node.p, node.rect, ModelOf(node.lb), n.Model, node.isVertical);
    }

    /** `contains(p)`: a null point is rejected; otherwise the answer is
        whether the point is stored (KdTree.java:105-108). */
    function Contains(p: Option<Point>): (r: Result<bool>)
      reads this, Repr
      requires Valid()
      ensures p.None? ==> r == Failure(IllegalArgument)
      ensures p.Some? ==> r == Success(p.value in Elems(Model()))
    {
      if p.None? then Failure(IllegalArgument)
      else Success((root != null && p.value == root.p) || ContainsAt(root, p.value))
    }

    /** The recursive `contains(node, p)` (KdTree.java:113-121): stop at an
        absent node or an equal point, otherwise descend on the side
        `insert` would have taken.  In an ordered tree that side is the
        only one that can hold the point. */
    static function ContainsAt(node: Node?, p: Point): (b: bool)
      reads if node == null then {} else node.Repr
      requires node != null ==> node.Valid() && Ordered(node.Model)
      ensures b <==> p in Elems(ModelOf(node))
      decreases if node == null then {} else node.Repr
    {
      if node == null then false
      else if node.p == p then true
      else if Compare(node.p, node.isVertical, p) < 0 then
        AtMostExcludes(ModelOf(node.rt), node.isVertical, Coord(node.p, node.isVertical), p);
        ContainsAt(node.lb, p)
      else
        AboveExcludes(ModelOf(node.lb), node.isVertical, Coord(node.p, node.isVertical), p);
        ContainsAt(node.rt, p)
    }

    /** `range(rect)` (KdTree.java:158-191), with the work queue of the
        source and the corrected choice of child.  The result holds each
        point reported by `Found` exactly once; when every stored point is
        in the unit square those are exactly the stored points inside
        `rect`, boundary included. */
    method Range(rect: RectHV) returns (range: seq<Point>)
      requires Valid()
      ensures forall x :: x in range <==> x in Found(Model(), rect, Corrected)
      ensures Unique(range)
      ensures Inside(Model(), Unit) ==> forall x :: x in range <==> x in Elems(Model()) && Geometry.Contains(rect, x)
    {
      range := [];
      var queue: seq<Node?> := [root];
      ghost var todo: seq<Tree> := [Model()];
      while queue != []
        invariant |queue| == |todo|
        invariant forall i | 0 <= i < |queue| ::
          (queue[i] != null ==> queue[i].Valid()) && ModelOf(queue[i]) == todo[i]
        invariant Pending(todo)
        invariant forall x | x in range :: x !in ElemsAll(todo)
        invariant Unique(range)
        invariant forall x :: x in Found(Model(), rect, Corrected) <==> x in range || x in FoundAll(todo, rect)
        decreases Weight(todo)
      {
        var curr := queue[0];
        ghost var t := todo[0];
        ghost var rest := todo[1..];
        assert todo == [t] + rest;
        queue := queue[1..];
        var found: seq<Point> := [];
        if curr != null {
          var kids;
          kids, found := Visit(curr, rect);
          QueueAdvance(queue, rest, kids, Queued(t, rect));
          queue := queue + kids;
        } else {
          QueueAdvance(queue, rest, [], []);
          assert queue + [] == queue;
        }
        RangeStep(range, found, t, rest, rect, Found(Model(), rect, Corrected));
        WorkStep(t, rest, rect);
        range := range + found;
        todo := rest + Queued(t, rect);
      }
      if Inside(Model(), Unit) {
        FoundIsRange(Model(), rect);
      }
    }

    /** The body of the `range` loop for one node (KdTree.java:165-187):
        the children it queues and the point it reports. */
    static method Visit(curr: Node, rect: RectHV) returns (kids: seq<Node?>, found: seq<Point>)
      requires curr.Valid()
      ensures |kids| == |Queued(curr.Model, rect)|
      ensures forall i | 0 <= i < |kids| ::
        (kids[i] != null ==> kids[i].Valid()) && ModelOf(kids[i]) == Queued(curr.Model, rect)[i]
      ensures found == if curr.p in Reported(curr.Model, rect) then [curr.p] else []
    {
      kids, found := [], [];
      if Straddles(curr.p, curr.rect, curr.isVertical, rect) {
        kids := kids + [curr.lb, curr.rt];
        if Geometry.Contains(rect, curr.p) {
          found := found + [curr.p];
        }
      }
      if Intersects(curr.rect, rect) {
        if Coord(curr.p, curr.isVertical) < Lo(rect, curr.isVertical) {
          kids := kids + [curr.lb];
        } else if Coord(curr.p, curr.isVertical) > Hi(rect, curr.isVertical) {
          kids := kids + [curr.rt];
        }
      }
    }

    /** `nearest(p)` (KdTree.java:206-218): nothing on an empty tree,
        otherwise the point `KdTreeModel.Nearest` picks; when every stored
        point is in the unit square that is a stored point at minimal
        squared distance from `q`. */
    method Nearest(q: Point) returns (r: Option<Point>)
      requires Valid()
      ensures r == KdTreeModel.Nearest(Model(), q)
      ensures Inside(Model(), Unit) ==>
        (r.None? <==> Elems(Model()) == {}) &&
        (r.Some? ==>
           r.value in Elems(Model()) &&
           forall x | x in Elems(Model()) :: DistSq(q, r.value) <= DistSq(q, x))
    {
      if Inside(Model(), Unit) {
        NearestIsNearest(Model(), q);
      }
      if root == null {
        return None;
      }
      var n: Node;
      if q.x < root.p.x {
        n := NearestAt(q, root.lb, root, DistSq(q, root.p));
        n := NearestAt(q, root.rt, n, DistSq(q, n.p));
      } else {
        n := NearestAt(q, root.rt, root, DistSq(q, root.p));
        n := NearestAt(q, root.lb, n, DistSq(q, n.p));
      }
      r := Some(n.p);
    }

    /** The recursive `nearest(p, node, nearestNode, nearestDist)`
        (KdTree.java:220-243), proved to compute `NearestFrom`. */
    static method NearestAt(q: Point, node: Node?, nearestNode: Node, nearestDist: real) returns (n: Node)
      requires node != null ==> node.Valid()
      ensures n.p == NearestFrom(q, ModelOf(node), nearestNode.p, nearestDist)
      decreases ReprOf(node)
    {
      if node == null || RectDistSq(node.rect, q) > nearestDist {
        return nearestNode;
      }
      var best, bestDist := nearestNode, nearestDist;
      var currDist := DistSq(node.p, q);
      if currDist < bestDist {
        bestDist := currDist;
        best := node;
      }
      if Compare(node.p, node.isVertical, q) > 0 {
        best := NearestAt(q, node.lb, best, bestDist);
        bestDist := DistSq(best.p, q);
        best := NearestAt(q, node.rt, best, bestDist);
      } else {
        best := NearestAt(q, node.rt, best, bestDist);
        bestDist := DistSq(best.p, q);
        best := NearestAt(q, node.lb, best, bestDist);
      }
      n := best;
    }
  }

  /** Appending to the range work queue keeps it in step with its models. */
  lemma QueueAdvance(queue: seq<Node?>, todo: seq<Tree>, kids: seq<Node?>, added: seq<Tree>)
    requires |queue| == |todo| && |kids| == |added|
    requires forall i | 0 <= i < |queue| :: (queue[i] != null ==> queue[i].Valid()) && ModelOf(queue[i]) == todo[i]
    requires forall i | 0 <= i < |kids| :: (kids[i] != null ==> kids[i].Valid()) && ModelOf(kids[i]) == added[i]
    ensures |queue + kids| == |todo + added|
    ensures forall i | 0 <= i < |queue + kids| ::
      ((queue + kids)[i] != null ==> (queue + kids)[i].Valid()) && ModelOf((queue + kids)[i]) == (todo + added)[i]
  {
  }
}
