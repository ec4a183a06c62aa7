/** The state and steps of `DeluxBFS`, the two-sided lockstep breadth-first
    search behind shortest ancestral paths, as values. A `Digraph` is its
    adjacency lists; the three hash maps and the two `ancestor` fields make
    up a `Search`. Each side of the search is named by a root: the vertex
    itself in the single-vertex search, 0 or 1 in the search from lists. */
module LockstepModel {

  type Digraph = seq<seq<int>>

  /** Every edge of `G` leads to a vertex of `G` (algs4 `Digraph` checks
      this in `addEdge`). */
  predicate IsDigraph(G: Digraph) {
    forall v, i | 0 <= v < |G| && 0 <= i < |G[v]| :: 0 <= G[v][i] < |G|
  }

  /** The vertices an `Iterable<Integer>` yields. */
  function AsSet(list: seq<int>): set<int> {
    set x | x in list
  }

  datatype Search = Search(
    marked: map<int, bool>,
    distTo: map<int, int>,
    edgeTo: map<int, int>,
    ancestor: int,
    ancestorDistance: int)

  /** The state right after `initialize`, with both ancestor fields -1. */
  const Start := Search(map[], map[], map[], -1, -1)

  /** `marked.getOrDefault(x, false)`. */
  function Marked(s: Search, x: int): bool {
    if x in s.marked then s.marked[x] else false
  }

  /** `edgeTo.getOrDefault(x, -1)`. */
  function EdgeOr(s: Search, x: int): int {
    if x in s.edgeTo then s.edgeTo[x] else -1
  }

  /** Every `marked` entry is `true` and has a `distTo` entry, which is
      what the `distTo.get` calls rely on. */
  ghost predicate Tracked(s: Search) {
    forall x | x in s.marked :: s.marked[x] && x in s.distTo
  }

  /** `initQueue(int, Queue)` as written: a vertex marked already is a
      meeting at distance 0; the source gets no `edgeTo` entry. */
  function InitOneAsWritten(s: Search, index: int): (r: Search)
    ensures Marked(r, index) && index in r.distTo && r.distTo[index] == 0 && r.edgeTo == s.edgeTo
    ensures index in s.marked ==> r.ancestor == index && r.ancestorDistance == 0
    ensures index !in s.marked ==> r.ancestor == s.ancestor && r.ancestorDistance == s.ancestorDistance
  {
    var s1 := if index in s.marked then s.(ancestor := index, ancestorDistance := 0) else s;
    s1.(marked := s1.marked[index := true], distTo := s1.distTo[index := 0])
  }

  /** `initQueue(int, Queue)` corrected: the source is also recorded as
      reached by its own side, whose root is the source itself. */
  function InitOne(s: Search, index: int): (r: Search)
    ensures Marked(r, index) && index in r.distTo && r.distTo[index] == 0 && EdgeOr(r, index) == index
    ensures index in s.marked ==> r.ancestor == index && r.ancestorDistance == 0
    ensures index !in s.marked ==> r.ancestor == s.ancestor && r.ancestorDistance == s.ancestorDistance
  {
    var s1 := InitOneAsWritten(s, index);
    s1.(edgeTo := s1.edgeTo[index := index])
  }

  /** The body of `initQueue(Iterable, Queue)` for one vertex `x`, as
      written. */
  function InitStepAsWritten(s: Search, x: int): Search {
    var s1 := if Marked(s, x) then s.(ancestor := x, ancestorDistance := 0) else s;
    s1.(marked := s1.marked[x := true], distTo := s1.distTo[x := 0])
  }

  /** `initQueue(Iterable, Queue)` as written: any vertex seen before,
      even one earlier in the same list, is a meeting at distance 0, and no
      vertex of the list gets an `edgeTo` entry, so a walk back to one of
      them is later taken for the other side. */
  function InitListAsWritten(s: Search, list: seq<int>): Search
    decreases |list|
  {
    if list == [] then s else InitListAsWritten(InitStepAsWritten(s, list[0]), list[1..])
  }

  /** ... corrected: only a vertex reached by the other side is a meeting,
      and each source is recorded as reached by its own side `root`. */
  function InitStep(s: Search, x: int, root: int): Search {
    var s1 := if Marked(s, x) && EdgeOr(s, x) != root then s.(ancestor := x, ancestorDistance := 0) else s;
    s1.(marked := s1.marked[x := true], distTo := s1.distTo[x := 0], edgeTo := s1.edgeTo[x := root])
  }

  function InitList(s: Search, list: seq<int>, root: int): Search
    decreases |list|
  {
    if list == [] then s else InitList(InitStep(s, list[0], root), list[1..], root)
  }

  /** Marks `adj` as discovered from `curr` by side `root`. */
  function Discover(s: Search, adj: int, curr: int, root: int): Search
    requires curr in s.distTo
  {
    s.(marked := s.marked[adj := true], edgeTo := s.edgeTo[adj := root], distTo := s.distTo[adj := s.distTo[curr] + 1])
  }

  /** The loop over `G.adj(curr)` in `markSingle` and `markList`: the
      vertices of `adjs` are looked at in order; a marked vertex reached
      first by the other side is a meeting and ends the loop (the `return`);
      an unmarked one is marked and queued after `acc`. The result is the
      new state, the queue and whether a meeting ended the loop. */
  function Expand(s: Search, adjs: seq<int>, curr: int, root: int, acc: seq<int>): (r: (Search, seq<int>, bool))
    requires Tracked(s) && Marked(s, curr)
    ensures Tracked(r.0) && Marked(r.0, curr) && r.0.distTo[curr] == s.distTo[curr]
    ensures forall x | x in s.marked :: x in r.0.marked && r.0.distTo[x] == s.distTo[x] && EdgeOr(r.0, x) == EdgeOr(s, x)
    ensures forall x | Marked(s, x) :: Marked(r.0, x)
    ensures |acc| <= |r.1| && r.1[..|acc|] == acc
    ensures |r.0.marked| == |s.marked| + |r.1| - |acc|
    decreases |adjs|
  {
    if adjs == [] then (s, acc, false)
    else
      var adj := adjs[0];
      if Marked(s, adj) && EdgeOr(s, adj) != root then
        (s.(ancestor := adj, ancestorDistance := s.distTo[adj] + s.distTo[curr] + 1), acc, true)
      else if !Marked(s, adj) then
        Expand(Discover(s, adj, curr, root), adjs[1..], curr, root, acc + [adj])
      else
        Expand(s, adjs[1..], curr, root, acc)
  }

  /** `markSingle`: dequeues one vertex and expands it. */
  function MarkSingle(s: Search, G: Digraph, q: seq<int>, root: int): (r: (Search, seq<int>))
    requires Tracked(s) && q != [] && 0 <= q[0] < |G| && Marked(s, q[0])
  {
    var e := Expand(s, G[q[0]], q[0], root, q[1..]);
    (e.0, e.1)
  }

  /** The loop over one level in `markList`; a meeting ends it. */
  function ExpandLevel(s: Search, G: Digraph, level: seq<int>, root: int, arr: seq<int>): (r: (Search, seq<int>, bool))
    requires Tracked(s) && forall x | x in level :: 0 <= x < |G| && Marked(s, x)
    ensures Tracked(r.0)
    ensures forall x | x in s.marked :: x in r.0.marked
    ensures |r.0.marked| == |s.marked| + |r.1| - |arr|
    decreases |level|
  {
    if level == [] then (s, arr, false)
    else
      assert level[0] in level && forall x | x in level[1..] :: x in level;
      var e := Expand(s, G[level[0]], level[0], root, arr);
      if e.2 then e else ExpandLevel(e.0, G, level[1..], root, e.1)
  }

  /** One vertex of a level: `ExpandLevel` expands it, stops on a meeting
      and otherwise goes on with the rest, all of which is still marked. */
  lemma ExpandLevelStep(s: Search, G: Digraph, level: seq<int>, root: int, arr: seq<int>)
    requires Tracked(s) && level != [] && forall x | x in level :: 0 <= x < |G| && Marked(s, x)
    ensures level[0] in level && 0 <= level[0] < |G| && Marked(s, level[0])
    ensures var e := Expand(s, G[level[0]], level[0], root, arr);
      && (forall x | x in level[1..] :: 0 <= x < |G| && Marked(e.0, x))
      && ExpandLevel(s, G, level, root, arr) == (if e.2 then e else ExpandLevel(e.0, G, level[1..], root, e.1))
  {
    assert level[0] in level && forall x | x in level[1..] :: x in level;
  }

  /** `markList`: dequeues one level, expands it and queues the next level
      unless it is empty or a meeting returned early. */
  function MarkList(s: Search, G: Digraph, q: seq<seq<int>>, root: int): (r: (Search, seq<seq<int>>))
    requires Tracked(s) && q != [] && forall x | x in q[0] :: 0 <= x < |G| && Marked(s, x)
    ensures |r.1| <= |q|
    ensures |r.1| == |q| ==> |r.0.marked| > |s.marked|
  {
    var e := ExpandLevel(s, G, q[0], root, []);
    (e.0, q[1..] + (if !e.2 && e.1 != [] then [e.1] else []))
  }

  // ---------------------------------------------------------------------
  // What a meeting means

  /** `p` is a walk along the edges of `G` from a vertex of `src` to `x`. */
  ghost predicate WalkTo(G: Digraph, src: set<int>, p: seq<int>, x: int) {
    && |p| >= 1 && p[0] in src && p[|p| - 1] == x
    && forall i | 0 <= i < |p| - 1 :: 0 <= p[i] < |G| && p[i + 1] in G[p[i]]
  }

  /** `x` is a common ancestor of the two sides with an ancestral path of
      length `d`: walks from each side to `x` whose lengths add up to `d`. */
  ghost predicate Meets(G: Digraph, srcA: set<int>, srcB: set<int>, x: int, d: int) {
    exists pa, pb :: WalkTo(G, srcA, pa, x) && WalkTo(G, srcB, pb, x) && |pa| + |pb| == d + 2
  }

  /** The two sides: their roots and their source vertices. */
  datatype Sides = Sides(rootA: int, rootB: int, srcA: set<int>, srcB: set<int>) {
    function Src(root: int): set<int> {
      if root == rootA then srcA else srcB
    }
  }

  /** The marked vertex `x` is a vertex of `G`, carries the root of one
      side, and `walks` holds a walk from that side's sources to it whose
      length is its `distTo`. */
  ghost predicate SoundAt(G: Digraph, s: Search, sides: Sides, walks: map<int, seq<int>>, x: int)
    requires x in s.marked
  {
    && s.marked[x] && 0 <= x < |G| && x in s.distTo && x in walks
    && (EdgeOr(s, x) == sides.rootA || EdgeOr(s, x) == sides.rootB)
    && WalkTo(G, sides.Src(EdgeOr(s, x)), walks[x], x) && |walks[x]| == s.distTo[x] + 1
  }

  /** Every marked vertex is accounted for; the ancestor fields are -1
      together, and otherwise name a common ancestor and the length of an
      ancestral path to it. */
  ghost predicate Sound(G: Digraph, s: Search, sides: Sides, walks: map<int, seq<int>>) {
    && (forall x | x in s.marked :: SoundAt(G, s, sides, walks, x))
    && (s.ancestor == -1 <==> s.ancestorDistance == -1)
    && (s.ancestor != -1 ==> Meets(G, sides.srcA, sides.srcB, s.ancestor, s.ancestorDistance))
  }

  /** Every vertex queued on side `root` is marked by that side. */
  ghost predicate QueueOk(s: Search, q: seq<int>, root: int) {
    forall i | 0 <= i < |q| :: q[i] in s.marked && EdgeOr(s, q[i]) == root
  }

  ghost predicate LevelsOk(s: Search, q: seq<seq<int>>, root: int) {
    forall i | 0 <= i < |q| :: QueueOk(s, q[i], root)
  }

  /** A walk to `x` followed by an edge out of `x` is a walk. */
  lemma WalkExtend(G: Digraph, src: set<int>, p: seq<int>, x: int, y: int)
    requires WalkTo(G, src, p, x) && 0 <= x < |G| && y in G[x]
    ensures WalkTo(G, src, p + [y], y)
  {
    var p' := p + [y];
    forall i | 0 <= i < |p'| - 1 ensures 0 <= p'[i] < |G| && p'[i + 1] in G[p'[i]] {
      if i < |p| - 1 {
        assert p'[i] == p[i] && p'[i + 1] == p[i + 1];
      }
    }
  }

  /** An edge target is a vertex of `G`. */
  lemma EdgeTarget(G: Digraph, x: int, y: int)
    requires IsDigraph(G) && 0 <= x < |G| && y in G[x]
    ensures 0 <= y < |G|
  {
    var i :| 0 <= i < |G[x]| && G[x][i] == y;
  }

  /** Discovering `adj` from `curr` extends `curr`'s walk by one edge. */
  lemma DiscoverSound(G: Digraph, s: Search, sides: Sides, walks: map<int, seq<int>>, adj: int, curr: int, root: int)
    requires IsDigraph(G) && Sound(G, s, sides, walks)
    requires root == sides.rootA || root == sides.rootB
    requires curr in s.marked && EdgeOr(s, curr) == root && adj in G[curr] && !Marked(s, adj)
    ensures Sound(G, Discover(s, adj, curr, root), sides, walks[adj := walks[curr] + [adj]])
    ensures forall q, side | QueueOk(s, q, side) :: QueueOk(Discover(s, adj, curr, root), q, side)
  {
    var s1 := Discover(s, adj, curr, root);
    var w1 := walks[adj := walks[curr] + [adj]];
    assert SoundAt(G, s, sides, walks, curr);
    forall x | x in s1.marked ensures SoundAt(G, s1, sides, w1, x) {
      if x == adj {
        EdgeTarget(G, curr, adj);
        WalkExtend(G, sides.Src(root), walks[curr], curr, adj);
      } else {
        assert SoundAt(G, s, sides, walks, x);
        assert EdgeOr(s1, x) == EdgeOr(s, x) && w1[x] == walks[x];
      }
    }
  }

  /** A meeting at `adj`, reached by the other side, joins the walk to
      `curr` plus the edge to `adj` with the other side's walk to `adj`. */
  lemma MeetSound(G: Digraph, s: Search, sides: Sides, walks: map<int, seq<int>>, adj: int, curr: int, root: int)
    requires IsDigraph(G) && Sound(G, s, sides, walks)
    requires root == sides.rootA || root == sides.rootB
    requires curr in s.marked && EdgeOr(s, curr) == root && adj in G[curr]
    requires Marked(s, adj) && EdgeOr(s, adj) != root
    ensures Meets(G, sides.srcA, sides.srcB, adj, s.distTo[adj] + s.distTo[curr] + 1)
  {
    assert SoundAt(G, s, sides, walks, curr);
    assert SoundAt(G, s, sides, walks, adj);
    var pc := walks[curr] + [adj];
    WalkExtend(G, sides.Src(root), walks[curr], curr, adj);
    if root == sides.rootA {
      assert WalkTo(G, sides.srcA, pc, adj) && WalkTo(G, sides.srcB, walks[adj], adj);
    } else {
      assert WalkTo(G, sides.srcA, walks[adj], adj) && WalkTo(G, sides.srcB, pc, adj);
    }
  }

  /** `Expand` keeps the search sound and its queue in order: every
      meeting it records is a common ancestor with an ancestral path of the
      recorded length. */
  lemma {:induction false} ExpandSound(G: Digraph, s: Search, sides: Sides, walks: map<int, seq<int>>,
                                       adjs: seq<int>, curr: int, root: int, acc: seq<int>)
      returns (walks': map<int, seq<int>>)
    requires IsDigraph(G) && Sound(G, s, sides, walks)
    requires root == sides.rootA || root == sides.rootB
    requires curr in s.marked && EdgeOr(s, curr) == root
    requires forall a | a in adjs :: a in G[curr]
    requires QueueOk(s, acc, root)
    ensures Sound(G, Expand(s, adjs, curr, root, acc).0, sides, walks')
    ensures QueueOk(Expand(s, adjs, curr, root, acc).0, Expand(s, adjs, curr, root, acc).1, root)
    decreases |adjs|
  {
    walks' := walks;
    if adjs != [] {
      var adj := adjs[0];
      assert adj in G[curr];
      if Marked(s, adj) && EdgeOr(s, adj) != root {
        MeetSound(G, s, sides, walks, adj, curr, root);
      } else if !Marked(s, adj) {
        var s1 := Discover(s, adj, curr, root);
        DiscoverSound(G, s, sides, walks, adj, curr, root);
        assert forall a | a in adjs[1..] :: a in adjs;
        walks' := ExpandSound(G, s1, sides, walks[adj := walks[curr] + [adj]], adjs[1..], curr, root, acc + [adj]);
      } else {
        assert forall a | a in adjs[1..] :: a in adjs;
        walks' := ExpandSound(G, s, sides, walks, adjs[1..], curr, root, acc);
      }
    }
  }

  /** A vertex is marked at most once: every vertex `Expand` marks was
      unmarked, is reached by an edge from `curr`, is queued, carries the
      side `root` and is one step farther than `curr`. */
  lemma {:induction false} ExpandDiscovers(s: Search, adjs: seq<int>, curr: int, root: int, acc: seq<int>)
    requires Tracked(s) && Marked(s, curr)
    ensures var r := Expand(s, adjs, curr, root, acc);
      forall x | x in r.0.marked && x !in s.marked ::
        x in r.1 && x in adjs && EdgeOr(r.0, x) == root && r.0.distTo[x] == s.distTo[curr] + 1
    ensures var r := Expand(s, adjs, curr, root, acc);
      forall i | |acc| <= i < |r.1| :: r.1[i] !in s.marked && r.1[i] in r.0.marked
    decreases |adjs|
  {
    if adjs != [] {
      var adj := adjs[0];
      if Marked(s, adj) && EdgeOr(s, adj) != root {
      } else if !Marked(s, adj) {
        var s1 := Discover(s, adj, curr, root);
        var r := Expand(s1, adjs[1..], curr, root, acc + [adj]);
        ExpandDiscovers(s1, adjs[1..], curr, root, acc + [adj]);
        assert r.1[..|acc| + 1] == acc + [adj] && r.1[|acc|] == adj;
        forall x | x in r.0.marked && x !in s.marked
          ensures x in r.1 && x in adjs && EdgeOr(r.0, x) == root && r.0.distTo[x] == s.distTo[curr] + 1
        {
          if x == adj {
            assert x in s1.marked;
          } else {
            assert x !in s1.marked;
          }
        }
      } else {
        ExpandDiscovers(s, adjs[1..], curr, root, acc);
      }
    }
  }

  /** A meeting is an edge from `curr` to a vertex marked before by the
      other side, and the distance recorded is the sum of both `distTo`s
      plus one; without a meeting the ancestor fields are untouched. */
  lemma {:induction false} ExpandMeeting(s: Search, adjs: seq<int>, curr: int, root: int, acc: seq<int>)
    requires Tracked(s) && Marked(s, curr)
    ensures var r := Expand(s, adjs, curr, root, acc);
      r.2 ==>
        && r.0.ancestor in s.marked && r.0.ancestor in adjs && EdgeOr(s, r.0.ancestor) != root
        && r.0.ancestorDistance == s.distTo[r.0.ancestor] + s.distTo[curr] + 1
    ensures var r := Expand(s, adjs, curr, root, acc);
      !r.2 ==> r.0.ancestor == s.ancestor && r.0.ancestorDistance == s.ancestorDistance
    decreases |adjs|
  {
    if adjs != [] {
      var adj := adjs[0];
      if Marked(s, adj) && EdgeOr(s, adj) != root {
      } else if !Marked(s, adj) {
        var s1 := Discover(s, adj, curr, root);
        ExpandMeeting(s1, adjs[1..], curr, root, acc + [adj]);
        var r := Expand(s1, adjs[1..], curr, root, acc + [adj]);
        if r.2 {
          ExpandDiscovers(s1, adjs[1..], curr, root, acc + [adj]);
          assert r.0.ancestor in s.marked;
        }
      } else {
        ExpandMeeting(s, adjs[1..], curr, root, acc);
      }
    }
  }

  /** `Expand` keeps what is recorded for vertices marked before it, so a
      queue that was in order stays in order. */
  lemma ExpandKeepsQueue(s: Search, adjs: seq<int>, curr: int, root: int, acc: seq<int>, q: seq<int>, side: int)
    requires Tracked(s) && Marked(s, curr) && QueueOk(s, q, side)
    ensures QueueOk(Expand(s, adjs, curr, root, acc).0, q, side)
  {
  }

  /** `ExpandLevel` keeps the search sound and its new level in order. */
  lemma {:induction false} ExpandLevelSound(G: Digraph, s: Search, sides: Sides, walks: map<int, seq<int>>,
                                            level: seq<int>, root: int, arr: seq<int>)
      returns (walks': map<int, seq<int>>)
    requires IsDigraph(G) && Sound(G, s, sides, walks)
    requires root == sides.rootA || root == sides.rootB
    requires forall x | x in level :: 0 <= x < |G| && Marked(s, x)
    requires QueueOk(s, level, root) && QueueOk(s, arr, root)
    ensures Sound(G, ExpandLevel(s, G, level, root, arr).0, sides, walks')
    ensures QueueOk(ExpandLevel(s, G, level, root, arr).0, ExpandLevel(s, G, level, root, arr).1, root)
    ensures forall q, side | QueueOk(s, q, side) :: QueueOk(ExpandLevel(s, G, level, root, arr).0, q, side)
    decreases |level|
  {
    walks' := walks;
    if level != [] {
      var curr := level[0];
      assert curr in level;
      var e := Expand(s, G[curr], curr, root, arr);
      var w1 := ExpandSound(G, s, sides, walks, G[curr], curr, root, arr);
      forall q, side | QueueOk(s, q, side) ensures QueueOk(e.0, q, side) {
        ExpandKeepsQueue(s, G[curr], curr, root, arr, q, side);
      }
      if !e.2 {
        assert forall x | x in level[1..] :: x in level;
        assert QueueOk(e.0, level[1..], root) by {
          ExpandKeepsQueue(s, G[curr], curr, root, arr, level, root);
        }
        walks' := ExpandLevelSound(G, e.0, sides, w1, level[1..], root, e.1);
      } else {
        walks' := w1;
      }
    }
  }

  /** The two single-vertex sources: sound, and queued in order; `v == w`
      is a meeting at `v` at distance 0 and nothing else is marked. */
  lemma InitPairSound(G: Digraph, v: int, w: int)
    requires 0 <= v < |G| && 0 <= w < |G|
    ensures var s := InitOne(InitOne(Start, v), w);
      && Sound(G, s, Sides(v, w, {v}, {w}), map[v := [v], w := [w]])
      && QueueOk(s, [v], v) && QueueOk(s, [w], w)
    ensures var s := InitOne(InitOne(Start, v), w);
      && (v == w ==> s.ancestor == v && s.ancestorDistance == 0 && s.marked.Keys == {v})
      && (v != w ==> s.ancestor == -1)
  {
    var s := InitOne(InitOne(Start, v), w);
    var sides := Sides(v, w, {v}, {w});
    var walks := map[v := [v], w := [w]];
    assert SoundAt(G, s, sides, walks, v);
    assert SoundAt(G, s, sides, walks, w);
    if v == w {
      assert WalkTo(G, {v}, [v], v) && WalkTo(G, {w}, [w], v);
    }
  }

  /** During the start-up of the list search every marked vertex is a
      source at distance 0 with its one-vertex walk. */
  ghost predicate Seeded(s: Search, sides: Sides, walks: map<int, seq<int>>) {
    && (forall x | x in s.marked :: x in s.distTo && s.distTo[x] == 0 && x in walks && walks[x] == [x])
    && (s.ancestor != -1 ==> s.ancestorDistance == 0) && s.ancestor >= -1
  }

  /** `Meets` at distance 0 means a vertex both sides start from. */
  lemma MeetsZero(G: Digraph, srcA: set<int>, srcB: set<int>, x: int)
    requires Meets(G, srcA, srcB, x, 0)
    ensures x in srcA && x in srcB
  {
  }

  /** One start-up step keeps the start-up sound; a meeting is a vertex
      the other side starts from. */
  lemma InitStepSound(G: Digraph, s: Search, sides: Sides, walks: map<int, seq<int>>, x: int, root: int)
    requires Sound(G, s, sides, walks) && Seeded(s, sides, walks)
    requires root == sides.rootA || root == sides.rootB
    requires 0 <= x < |G| && x in sides.Src(root)
    ensures Sound(G, InitStep(s, x, root), sides, walks[x := [x]])
    ensures Seeded(InitStep(s, x, root), sides, walks[x := [x]])
  {
    var s1 := InitStep(s, x, root);
    var w1 := walks[x := [x]];
    forall y | y in s1.marked ensures SoundAt(G, s1, sides, w1, y) {
      if y != x {
        assert SoundAt(G, s, sides, walks, y);
        assert EdgeOr(s1, y) == EdgeOr(s, y);
      }
    }
    if Marked(s, x) && EdgeOr(s, x) != root {
      assert SoundAt(G, s, sides, walks, x);
      assert WalkTo(G, sides.srcA, [x], x) && WalkTo(G, sides.srcB, [x], x);
    }
  }

  /** One start-up step marks `x` for side `root` and keeps every queue of
      that side in order. */
  lemma InitStepMarks(s: Search, x: int, root: int)
    requires Tracked(s)
    ensures var r := InitStep(s, x, root);
      && Tracked(r) && r.marked.Keys == s.marked.Keys + {x} && EdgeOr(r, x) == root
      && (forall q | QueueOk(s, q, root) :: QueueOk(r, q, root))
  {
  }

  /** The ancestor stays -1 only when `x` was not reached by the other
      side, and then every queue stays in order. */
  lemma InitStepAncestor(s: Search, x: int, root: int)
    requires Tracked(s) && 0 <= x
    ensures var r := InitStep(s, x, root);
      && (s.ancestor != -1 ==> r.ancestor != -1)
      && (x in s.marked && EdgeOr(s, x) != root ==> r.ancestor != -1)
      && (r.ancestor == -1 ==> forall q, side | QueueOk(s, q, side) :: QueueOk(r, q, side))
  {
  }

  /** The corrected `initQueue(Iterable, Queue)` marks exactly the vertices
      of the list ... */
  lemma {:induction false} InitListKeys(s: Search, list: seq<int>, root: int)
    requires Tracked(s)
    ensures Tracked(InitList(s, list, root))
    ensures InitList(s, list, root).marked.Keys == s.marked.Keys + AsSet(list)
    decreases |list|
  {
    if list != [] {
      var x := list[0];
      InitStepMarks(s, x, root);
      InitListKeys(InitStep(s, x, root), list[1..], root);
      assert list == [x] + list[1..];
      assert AsSet(list) == {x} + AsSet(list[1..]);
    }
  }

  /** ... and queues them in order for side `root`. */
  lemma {:induction false} InitListQueued(s: Search, list: seq<int>, root: int)
    requires Tracked(s)
    ensures QueueOk(InitList(s, list, root), list, root)
    ensures forall q | QueueOk(s, q, root) :: QueueOk(InitList(s, list, root), q, root)
    decreases |list|
  {
    if list != [] {
      var x := list[0];
      var s1 := InitStep(s, x, root);
      InitStepMarks(s, x, root);
      InitListQueued(s1, list[1..], root);
      var r := InitList(s1, list[1..], root);
      assert QueueOk(s1, [x], root);
      assert QueueOk(r, [x], root);
      forall i | 0 <= i < |list| ensures list[i] in r.marked && EdgeOr(r, list[i]) == root {
        if i == 0 {
          assert [x][0] == list[i];
        } else {
          assert list[i] == list[1..][i - 1];
        }
      }
    }
  }

  /** ... sets the ancestor as soon as one of its vertices was reached by
      the other side, and when the ancestor stays -1 every queue stays in
      order. */
  lemma {:induction false} InitListAncestor(s: Search, list: seq<int>, root: int)
    requires Tracked(s) && forall x | x in list :: 0 <= x
    ensures var r := InitList(s, list, root);
      && (s.ancestor != -1 ==> r.ancestor != -1)
      && ((exists x | x in list :: x in s.marked && EdgeOr(s, x) != root) ==> r.ancestor != -1)
      && (r.ancestor == -1 ==> forall q, side | QueueOk(s, q, side) :: QueueOk(r, q, side))
    decreases |list|
  {
    if list != [] {
      var x := list[0];
      assert x in list && forall y | y in list[1..] :: y in list;
      var s1 := InitStep(s, x, root);
      InitStepMarks(s, x, root);
      InitStepAncestor(s, x, root);
      InitListAncestor(s1, list[1..], root);
      if exists y | y in list :: y in s.marked && EdgeOr(s, y) != root {
        var y :| y in list && y in s.marked && EdgeOr(s, y) != root;
        if y != x {
          assert y in list[1..] && y in s1.marked && EdgeOr(s1, y) == EdgeOr(s, y);
        }
      }
    }
  }

  /** ... and keeps the start-up sound. */
  lemma {:induction false} InitListSound(G: Digraph, s: Search, sides: Sides, walks: map<int, seq<int>>,
                                         list: seq<int>, root: int)
      returns (walks': map<int, seq<int>>)
    requires Sound(G, s, sides, walks) && Seeded(s, sides, walks)
    requires root == sides.rootA || root == sides.rootB
    requires forall x | x in list :: 0 <= x < |G| && x in sides.Src(root)
    ensures Sound(G, InitList(s, list, root), sides, walks') && Seeded(InitList(s, list, root), sides, walks')
    decreases |list|
  {
    walks' := walks;
    if list != [] {
      var x := list[0];
      assert x in list && forall y | y in list[1..] :: y in list;
      InitStepSound(G, s, sides, walks, x, root);
      walks' := InitListSound(G, InitStep(s, x, root), sides, walks[x := [x]], list[1..], root);
    }
  }

  /** The start-up of the list search, sources on side 0 and goals on
      side 1: sound, and a vertex in both lists is a meeting at distance 0
      with only the listed vertices marked. */
  lemma ListsStartSound(G: Digraph, sources: seq<int>, goals: seq<int>, sides: Sides)
      returns (walks: map<int, seq<int>>)
    requires sides == Sides(0, 1, AsSet(sources), AsSet(goals))
    requires forall x | x in sources :: 0 <= x < |G|
    requires forall x | x in goals :: 0 <= x < |G|
    ensures var s := InitList(InitList(Start, sources, 0), goals, 1);
      && Sound(G, s, sides, walks) && s.ancestor >= -1
      && (s.ancestor == -1 ==> LevelsOk(s, [sources], 0) && LevelsOk(s, [goals], 1))
    ensures var s := InitList(InitList(Start, sources, 0), goals, 1);
      (exists x | x in sources :: x in goals) ==>
        && s.ancestor in sources && s.ancestor in goals && s.ancestorDistance == 0
        && s.marked.Keys == AsSet(sources) + AsSet(goals)
  {
    var s1 := InitList(Start, sources, 0);
    var s := InitList(s1, goals, 1);
    walks := InitListSound(G, Start, sides, map[], sources, 0);
    InitListKeys(Start, sources, 0);
    InitListQueued(Start, sources, 0);
    walks := InitListSound(G, s1, sides, walks, goals, 1);
    InitListKeys(s1, goals, 1);
    InitListQueued(s1, goals, 1);
    InitListAncestor(s1, goals, 1);
    assert Start.marked.Keys == {} && s1.marked.Keys == AsSet(sources);
    assert s.marked.Keys == AsSet(sources) + AsSet(goals);
    assert QueueOk(s, sources, 0) ==> LevelsOk(s, [sources], 0);
    assert QueueOk(s, goals, 1) ==> LevelsOk(s, [goals], 1);
    if exists x | x in sources :: x in goals {
      var x :| x in sources && x in goals;
      assert x in goals && x in s1.marked && EdgeOr(s1, x) != 1;
      MeetsZero(G, sides.srcA, sides.srcB, s.ancestor);
    }
  }

  // ---------------------------------------------------------------------
  // Termination

  /** The vertices 0 .. n-1. */
  function Upto(n: nat): (r: set<int>)
    ensures forall x :: x in r <==> 0 <= x < n
    ensures |r| == n
  {
    if n == 0 then {} else Upto(n - 1) + {n - 1}
  }

  /** The search marks vertices of `G` only, so it marks at most `|G|` of
      them: only newly marked vertices are queued, so it ends. */
  lemma MarkedBound(m: map<int, bool>, n: nat)
    requires forall x | x in m :: 0 <= x < n
    ensures |m| <= n
  {
    var all := Upto(n);
    assert m.Keys <= all;
    assert all == m.Keys + (all - m.Keys);
    assert |m.Keys| == |m|;
  }

  // ---------------------------------------------------------------------
  // Counterexamples to the code as written

  /** The graph 0 -> 1 -> 0 with vertex 2 on its own. */
  const CycleGraph: Digraph := [[1], [0], []]

  /** No walk leaves vertex 2 of `CycleGraph`. */
  lemma CycleGraphFromTwo(p: seq<int>, x: int)
    requires WalkTo(CycleGraph, {2}, p, x)
    ensures |p| == 1 || p[1] in CycleGraph[p[0]]
    ensures x == 2
  {
  }

  /** `DeluxBFS(G, 0, 2)` on `CycleGraph` as written: the search from 0
      comes back to 0, which has no `edgeTo` entry, reads that as meeting
      the other side and reports ancestor 0 at distance 2; both queues are
      then empty, so that is the result. Vertex 2 reaches nothing, so there
      is no ancestral path at all. */
  lemma CycleCounterexample()
    ensures var s0 := InitOneAsWritten(InitOneAsWritten(Start, 0), 2);
      var r1 := MarkSingle(s0, CycleGraph, [0], 0);
      var r2 := MarkSingle(r1.0, CycleGraph, [2], 2);
      var r3 := MarkSingle(r2.0, CycleGraph, r1.1, 0);
      && r1.1 == [1] && r2.1 == [] && r3.1 == []
      && r3.0.ancestor == 0 && r3.0.ancestorDistance == 2
    ensures !Meets(CycleGraph, {0}, {2}, 0, 2)
  {
    CycleGraphNoMeet();
  }

  /** The same search with the corrected start: the return to 0 is seen as
      the search's own side and no meeting is reported. */
  lemma CycleCorrected()
    ensures var s0 := InitOne(InitOne(Start, 0), 2);
      var r1 := MarkSingle(s0, CycleGraph, [0], 0);
      var r2 := MarkSingle(r1.0, CycleGraph, [2], 2);
      var r3 := MarkSingle(r2.0, CycleGraph, r1.1, 0);
      && r1.1 == [1] && r2.1 == [] && r3.1 == []
      && r3.0.ancestor == -1 && r3.0.ancestorDistance == -1
  {
  }

  /** Two vertices and no edges. */
  const EdgelessGraph: Digraph := [[], []]

  /** `DeluxBFS(G, [0, 0], [1])` on `EdgelessGraph` as written: the second 0
      of the source list is taken for a meeting, so the search reports
      ancestor 0 at distance 0 and stops, although 0 and 1 share no
      ancestor; the corrected start reports none. */
  lemma DuplicateSourceCounterexample()
    ensures var s := InitListAsWritten(InitListAsWritten(Start, [0, 0]), [1]);
      s.ancestor == 0 && s.ancestorDistance == 0
    ensures !Meets(EdgelessGraph, {0}, {1}, 0, 0)
    ensures InitList(InitList(Start, [0, 0], 0), [1], 1).ancestor == -1
  {
    if Meets(EdgelessGraph, {0}, {1}, 0, 0) {
      MeetsZero(EdgelessGraph, {0}, {1}, 0);
    }
  }

  /** `DeluxBFS(G, [0], [2])` on `CycleGraph` as written: the list start
      records no side either, so the source list's level [1] comes back to
      0, which has no `edgeTo` entry, and the search reports ancestor 0 at
      distance 2; both queues are then empty. Vertex 2 reaches nothing, so
      there is no ancestral path at all. */
  lemma ListCycleCounterexample()
    ensures var s0 := InitListAsWritten(InitListAsWritten(Start, [0]), [2]);
      var r1 := MarkList(s0, CycleGraph, [[0]], 0);
      var r2 := MarkList(r1.0, CycleGraph, [[2]], 1);
      var r3 := MarkList(r2.0, CycleGraph, r1.1, 0);
      && r1.1 == [[1]] && r2.1 == [] && r3.1 == []
      && r3.0.ancestor == 0 && r3.0.ancestorDistance == 2
    ensures !Meets(CycleGraph, {0}, {2}, 0, 2)
  {
    ListCycleRun();
    CycleGraphNoMeet();
  }

  /** The steps of `ListCycleCounterexample`'s search, one `markList` at a
      time. */
  lemma ListCycleRun()
    ensures var s0 := InitListAsWritten(InitListAsWritten(Start, [0]), [2]);
      var r1 := MarkList(s0, CycleGraph, [[0]], 0);
      var r2 := MarkList(r1.0, CycleGraph, [[2]], 1);
      var r3 := MarkList(r2.0, CycleGraph, r1.1, 0);
      && r1.1 == [[1]] && r2.1 == [] && r3.1 == []
      && r3.0.ancestor == 0 && r3.0.ancestorDistance == 2
  {
    var s0 := InitListAsWritten(InitListAsWritten(Start, [0]), [2]);
    assert s0 == Search(map[0 := true, 2 := true], map[0 := 0, 2 := 0], map[], -1, -1);
    var r1 := MarkList(s0, CycleGraph, [[0]], 0);
    assert r1.0 == Discover(s0, 1, 0, 0) && r1.1 == [[1]];
    var r2 := MarkList(r1.0, CycleGraph, [[2]], 1);
    assert r2 == (r1.0, []);
    assert MarkList(r2.0, CycleGraph, r1.1, 0).0.ancestor == 0;
  }

  /** Vertex 0 of `CycleGraph` is no common ancestor of 0 and 2. */
  lemma CycleGraphNoMeet()
    ensures !Meets(CycleGraph, {0}, {2}, 0, 2)
  {
    forall pa, pb | WalkTo(CycleGraph, {0}, pa, 0) && WalkTo(CycleGraph, {2}, pb, 0) ensures false {
      CycleGraphFromTwo(pb, 0);
    }
  }

  /** The same list search with the corrected start, which records each
      list's side as the `edgeTo` of its vertices: no meeting is reported. */
  lemma ListCycleCorrected()
    ensures var s0 := InitList(InitList(Start, [0], 0), [2], 1);
      var r1 := MarkList(s0, CycleGraph, [[0]], 0);
      var r2 := MarkList(r1.0, CycleGraph, [[2]], 1);
      var r3 := MarkList(r2.0, CycleGraph, r1.1, 0);
      && r1.1 == [[1]] && r2.1 == [] && r3.1 == []
      && r3.0.ancestor == -1 && r3.0.ancestorDistance == -1
  {
  }
}
