/** `DeluxBFS`: the lockstep search as a class whose fields are the three
    hash maps and the two ancestor fields; each method is proved to make
    the step `LockstepModel` defines, and the constructors collect what the
    lemmas there prove about those steps. The algs4 `Queue`s are local
    sequences; an `Iterable<Integer>` is a sequence. The start-up of both
    searches uses the corrected `initQueue`, which records each source as
    reached by its own side (see `InitOneAsWritten` and
    `InitListAsWritten` for the code as written). */
module LockstepBfs {
  import opened LockstepModel

  class DeluxBfs {
    var marked: map<int, bool>
    var distTo: map<int, int>
    var edgeTo: map<int, int>
    var ancestor: int
    var ancestorDistance: int

    function State(): Search
      reads this
    {
      Search(marked, distTo, edgeTo, ancestor, ancestorDistance)
    }

    /** The two ancestor fields are -1 together. */
    ghost predicate Paired()
      reads this
    {
      ancestor == -1 <==> ancestorDistance == -1
    }

    /** `DeluxBFS(G, v, w)`: a reported ancestor is a common ancestor of `v`
        and `w`, and the distance reported is the length of an ancestral
        path through it; `v == w` is reported at distance 0 without any
        expansion. */
    constructor Pair(G: Digraph, v: int, w: int)
      requires IsDigraph(G) && 0 <= v < |G| && 0 <= w < |G|
      ensures Paired()
      ensures ancestor != -1 ==> Meets(G, {v}, {w}, ancestor, ancestorDistance)
      ensures v == w ==> ancestor == v && ancestorDistance == 0 && marked.Keys == {v}
    {
      marked := map[];
      distTo := map[];
      edgeTo := map[];
      ancestor := -1;
      ancestorDistance := -1;
      new;
      BfsPair(G, v, w);
    }

    /** `DeluxBFS(G, sources, goals)`: a reported ancestor is a common
        ancestor of the two lists with an ancestral path of the reported
        length; when the lists share a vertex, a shared vertex is reported
        at distance 0 and only the listed vertices are marked. */
    constructor Lists(G: Digraph, sources: seq<int>, goals: seq<int>)
      requires IsDigraph(G)
      requires forall x | x in sources :: 0 <= x < |G|
      requires forall x | x in goals :: 0 <= x < |G|
      ensures Paired()
      ensures ancestor != -1 ==> Meets(G, AsSet(sources), AsSet(goals), ancestor, ancestorDistance)
      ensures (exists x | x in sources :: x in goals) ==>
        && ancestor in sources && ancestor in goals && ancestorDistance == 0
        && marked.Keys == AsSet(sources) + AsSet(goals)
    {
      marked := map[];
      distTo := map[];
      edgeTo := map[];
      ancestor := -1;
      ancestorDistance := -1;
      new;
      BfsLists(G, sources, goals);
    }

    function GetAncestor(): (a: int)
      reads this
      requires Paired()
      ensures a == -1 <==> GetAncestorDistance() == -1
    {
      ancestor
    }

    function GetAncestorDistance(): (d: int)
      reads this
      ensures Paired() ==> (d == -1 <==> ancestor == -1)
    {
      ancestorDistance
    }

    method BfsPair(G: Digraph, v: int, w: int)
      requires IsDigraph(G) && 0 <= v < |G| && 0 <= w < |G| && State() == Start
      modifies this
      ensures Paired()
      ensures ancestor != -1 ==> Meets(G, {v}, {w}, ancestor, ancestorDistance)
      ensures v == w ==> ancestor == v && ancestorDistance == 0 && marked.Keys == {v}
    {
      var qV := InitQueue(v, []);
      var qW := InitQueue(w, []);
      InitPairSound(G, v, w);
      ghost var sides := Sides(v, w, {v}, {w});
      ghost var walks := map[v := [v], w := [w]];
      if ancestor > -1 {
        return;
      }
      while qV != [] || qW != []
        invariant Sound(G, State(), sides, walks) && |marked| <= |G|
        invariant QueueOk(State(), qV, v) && QueueOk(State(), qW, w)
        decreases |G| - |marked|, |qV| + |qW|
      {
        if qV != [] {
          qV, walks := AdvanceSingle(G, qV, v, qW, w, sides, walks);
        }
        if qW != [] {
          qW, walks := AdvanceSingle(G, qW, w, qV, v, sides, walks);
        }
        MarkedBound(marked, |G|);
      }
    }

    /** One `markSingle` on side `root`, with what it keeps: soundness, both
        queues in order, and progress: it marks as many vertices as it
        queues. */
    method AdvanceSingle(G: Digraph, queue: seq<int>, root: int, other: seq<int>, otherRoot: int,
                         ghost sides: Sides, ghost walks: map<int, seq<int>>)
        returns (q: seq<int>, ghost walks': map<int, seq<int>>)
      requires IsDigraph(G) && Sound(G, State(), sides, walks)
      requires (root == sides.rootA || root == sides.rootB) && queue != []
      requires QueueOk(State(), queue, root) && QueueOk(State(), other, otherRoot)
      modifies this
      ensures Sound(G, State(), sides, walks') && QueueOk(State(), q, root) && QueueOk(State(), other, otherRoot)
      ensures |queue| - 1 <= |q| && |marked| == old(|marked|) + |q| - (|queue| - 1)
    {
      ghost var before := State();
      assert SoundAt(G, before, sides, walks, queue[0]);
      ExpandKeepsQueue(before, G[queue[0]], queue[0], root, queue[1..], other, otherRoot);
      walks' := ExpandSound(G, before, sides, walks, G[queue[0]], queue[0], root, queue[1..]);
      q := MarkSingle(G, queue, root);
    }

    /** The corrected `initQueue(int, Queue)`. */
    method InitQueue(index: int, queue: seq<int>) returns (q: seq<int>)
      modifies this
      ensures State() == InitOne(old(State()), index) && q == queue + [index]
    {
      q := queue + [index];
      if index in marked {
        ancestor := index;
        ancestorDistance := 0;
      }
      marked := marked[index := true];
      distTo := distTo[index := 0];
      edgeTo := edgeTo[index := index];
    }

    method MarkSingle(G: Digraph, queue: seq<int>, root: int) returns (q: seq<int>)
      requires Tracked(State()) && queue != [] && 0 <= queue[0] < |G| && Marked(State(), queue[0])
      modifies this
      ensures (State(), q) == LockstepModel.MarkSingle(old(State()), G, queue, root)
    {
      var index := queue[0];
      var met;
      q, met := VisitAdjacent(G, index, root, queue[1..]);
    }

    /** The loop over `G.adj(curr)` shared by `markSingle` and `markList`:
        newly marked vertices are appended to `acc`; `met` says that a
        meeting returned early. */
    method VisitAdjacent(G: Digraph, curr: int, root: int, acc: seq<int>) returns (q: seq<int>, met: bool)
      requires Tracked(State()) && 0 <= curr < |G| && Marked(State(), curr)
      modifies this
      ensures (State(), q, met) == Expand(old(State()), G[curr], curr, root, acc)
    {
      q, met := acc, false;
      var adjs := G[curr];
      for i := 0 to |adjs|
        invariant Tracked(State()) && Marked(State(), curr)
        invariant Expand(State(), adjs[i..], curr, root, q) == Expand(old(State()), adjs, curr, root, acc)
      {
        var adj := adjs[i];
        assert adjs[i..][1..] == adjs[i + 1..];
        if Marked(State(), adj) && EdgeOr(State(), adj) != root {
          ancestor := adj;
          ancestorDistance := distTo[adj] + distTo[curr] + 1;
          return q, true;
        }
        if !Marked(State(), adj) {
          marked := marked[adj := true];
          edgeTo := edgeTo[adj := root];
          distTo := distTo[adj := distTo[curr] + 1];
          q := q + [adj];
        }
      }
    }

    method BfsLists(G: Digraph, sources: seq<int>, goals: seq<int>)
      requires IsDigraph(G) && State() == Start
      requires forall x | x in sources :: 0 <= x < |G|
      requires forall x | x in goals :: 0 <= x < |G|
      modifies this
      ensures Paired()
      ensures ancestor != -1 ==> Meets(G, AsSet(sources), AsSet(goals), ancestor, ancestorDistance)
      ensures (exists x | x in sources :: x in goals) ==>
        && ancestor in sources && ancestor in goals && ancestorDistance == 0
        && marked.Keys == AsSet(sources) + AsSet(goals)
    {
      ghost var sides := Sides(0, 1, AsSet(sources), AsSet(goals));
      var qSources, qGoals;
      ghost var walks;
      qSources, qGoals, walks := StartLists(G, sources, goals, sides);
      if ancestor > -1 {
        return;
      }
      MarkedBound(marked, |G|);
      while qSources != [] || qGoals != []
        invariant Sound(G, State(), sides, walks) && |marked| <= |G|
        invariant LevelsOk(State(), qSources, 0) && LevelsOk(State(), qGoals, 1)
        decreases |G| - |marked|, |qSources| + |qGoals|
      {
        if qSources != [] {
          qSources, walks := AdvanceList(G, qSources, 0, qGoals, 1, sides, walks);
        }
        if qGoals != [] {
          qGoals, walks := AdvanceList(G, qGoals, 1, qSources, 0, sides, walks);
        }
        MarkedBound(marked, |G|);
      }
    }

    /** Both `initQueue(Iterable, Queue)` calls of the list search. */
    method StartLists(G: Digraph, sources: seq<int>, goals: seq<int>, ghost sides: Sides)
        returns (qSources: seq<seq<int>>, qGoals: seq<seq<int>>, ghost walks: map<int, seq<int>>)
      requires IsDigraph(G) && State() == Start && sides == Sides(0, 1, AsSet(sources), AsSet(goals))
      requires forall x | x in sources :: 0 <= x < |G|
      requires forall x | x in goals :: 0 <= x < |G|
      modifies this
      ensures Sound(G, State(), sides, walks) && qSources == [sources] && qGoals == [goals] && ancestor >= -1
      ensures ancestor == -1 ==> LevelsOk(State(), qSources, 0) && LevelsOk(State(), qGoals, 1)
      ensures (exists x | x in sources :: x in goals) ==>
        && ancestor in sources && ancestor in goals && ancestorDistance == 0
        && marked.Keys == AsSet(sources) + AsSet(goals)
    {
      walks := ListsStartSound(G, sources, goals, sides);
      qSources := InitQueueList(sources, [], 0);
      qGoals := InitQueueList(goals, [], 1);
    }

    /** One `markList` on side `root`, with what it keeps: soundness, both
        queues in order, and progress. */
    method AdvanceList(G: Digraph, queue: seq<seq<int>>, root: int, other: seq<seq<int>>, otherRoot: int,
                       ghost sides: Sides, ghost walks: map<int, seq<int>>)
        returns (q: seq<seq<int>>, ghost walks': map<int, seq<int>>)
      requires IsDigraph(G) && Sound(G, State(), sides, walks)
      requires sides.rootA == 0 && sides.rootB == 1 && (root == 0 || root == 1) && queue != []
      requires LevelsOk(State(), queue, root) && LevelsOk(State(), other, otherRoot)
      modifies this
      ensures Sound(G, State(), sides, walks') && LevelsOk(State(), q, root) && LevelsOk(State(), other, otherRoot)
      ensures |marked| >= old(|marked|) && |q| <= |queue| && (|q| == |queue| ==> |marked| > old(|marked|))
    {
      ghost var s := State();
      assert QueueOk(s, queue[0], root);
      forall x | x in queue[0] ensures 0 <= x < |G| && Marked(s, x) {
        var i :| 0 <= i < |queue[0]| && queue[0][i] == x;
        assert SoundAt(G, s, sides, walks, x);
      }
      walks' := ExpandLevelSound(G, s, sides, walks, queue[0], root, []);
      q := MarkList(G, queue, root);
      forall i | 0 <= i < |q| ensures QueueOk(State(), q[i], root) {
        if i < |queue| - 1 {
          assert q[i] == queue[i + 1] && QueueOk(s, queue[i + 1], root);
        }
      }
      forall i | 0 <= i < |other| ensures QueueOk(State(), other[i], otherRoot) {
        assert QueueOk(s, other[i], otherRoot);
      }
    }

    /** The corrected `initQueue(Iterable, Queue)`. */
    method InitQueueList(list: seq<int>, queue: seq<seq<int>>, root: int) returns (q: seq<seq<int>>)
      modifies this
      ensures State() == InitList(old(State()), list, root) && q == queue + [list]
    {
      var arr: seq<int> := [];
      for i := 0 to |list|
        invariant arr == list[..i]
        invariant InitList(State(), list[i..], root) == InitList(old(State()), list, root)
      {
        var s := list[i];
        assert list[i..][1..] == list[i + 1..];
        if Marked(State(), s) && EdgeOr(State(), s) != root {
          ancestor := s;
          ancestorDistance := 0;
        }
        marked := marked[s := true];
        distTo := distTo[s := 0];
        edgeTo := edgeTo[s := root];
        arr := arr + [s];
      }
      assert list[..|list|] == list;
      q := queue + [arr];
    }

    method MarkList(G: Digraph, queue: seq<seq<int>>, root: int) returns (q: seq<seq<int>>)
      requires Tracked(State()) && queue != [] && forall x | x in queue[0] :: 0 <= x < |G| && Marked(State(), x)
      modifies this
      ensures (State(), q) == LockstepModel.MarkList(old(State()), G, queue, root)
    {
      var indexes := queue[0];
      q := queue[1..];
      var arr: seq<int> := [];
      ghost var level := ExpandLevel(State(), G, indexes, root, []);
      for j := 0 to |indexes|
        invariant Tracked(State()) && forall x | x in indexes[j..] :: 0 <= x < |G| && Marked(State(), x)
        invariant ExpandLevel(State(), G, indexes[j..], root, arr) == level
      {
        var currIndex := indexes[j];
        assert indexes[j..][0] == currIndex && indexes[j..][1..] == indexes[j + 1..];
        ExpandLevelStep(State(), G, indexes[j..], root, arr);
        var met;
        arr, met := VisitAdjacent(G, currIndex, root, arr);
        if met {
          assert q + [] == q;
          return;
        }
      }
      assert indexes[|indexes|..] == [];
      if arr != [] {
        q := q + [arr];
      }
    }
  }
}
