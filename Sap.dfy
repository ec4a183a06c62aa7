/** `SAP`: shortest-ancestral-path queries on a digraph, each answered by
    a fresh `DeluxBFS`. Every query first checks its vertices and throws
    `IllegalArgumentException` for a null argument or a vertex outside
    `0 .. V-1`. */
module Saps {
  import opened Common
  import opened LockstepModel
  import opened LockstepBfs

  /** Every vertex of the list is a vertex of `G`. */
  predicate AllVertices(G: Digraph, vertices: seq<int>) {
    forall x | x in vertices :: 0 <= x < |G|
  }

  class Sap {
    const G: Digraph

    constructor (G: Digraph)
      requires IsDigraph(G)
      ensures this.G == G
    {
      this.G := G;
    }

    /** `validateVertex`: throws iff `v` is not a vertex. */
    function ValidateVertex(v: int): (o: Outcome)
      ensures o == Pass <==> 0 <= v < |G|
      ensures o != Pass ==> o == Fail(IllegalArgument)
    {
      if v < 0 || v >= |G| then Fail(IllegalArgument) else Pass
    }

    /** `validateVertices`: throws on a null list or at its first vertex
        out of range, and returns normally iff every vertex is valid. */
    method ValidateVertices(vertices: Option<seq<int>>) returns (o: Outcome)
      ensures vertices.None? ==> o == Fail(IllegalArgument)
      ensures vertices.Some? ==> (o == Pass <==> AllVertices(G, vertices.value))
      ensures o != Pass ==> o == Fail(IllegalArgument)
    {
      if vertices.None? {
        return Fail(IllegalArgument);
      }
      var list := vertices.value;
      var i := 0;
      while i < |list|
        invariant 0 <= i <= |list|
        invariant forall k | 0 <= k < i :: 0 <= list[k] < |G|
      {
        var v := list[i];
        if !(v >= 0 && v < |G|) {
          assert v in list;
          return Fail(IllegalArgument);
        }
        i := i + 1;
      }
      return Pass;
    }

    /** `length(int, int)`: a distance other than -1 is the length of an
        ancestral path of `v` and `w`; `v == w` has length 0. */
    method Length(v: int, w: int) returns (r: Result<int>)
      requires IsDigraph(G)
      ensures !(0 <= v < |G| && 0 <= w < |G|) <==> r == Failure(IllegalArgument)
      ensures r.Success? && r.value != -1 ==> exists a :: Meets(G, {v}, {w}, a, r.value)
      ensures r.Success? && v == w ==> r.value == 0
    {
      if ValidateVertex(v).Fail? || ValidateVertex(w).Fail? {
        return Failure(IllegalArgument);
      }
      var bfs := new DeluxBfs.Pair(G, v, w);
      return Success(bfs.GetAncestorDistance());
    }

    /** `ancestor(int, int)`: a vertex other than -1 is a common ancestor
        of `v` and `w`; `v == w` is its own ancestor. */
    method Ancestor(v: int, w: int) returns (r: Result<int>)
      requires IsDigraph(G)
      ensures !(0 <= v < |G| && 0 <= w < |G|) <==> r == Failure(IllegalArgument)
      ensures r.Success? && r.value != -1 ==> exists d :: Meets(G, {v}, {w}, r.value, d)
      ensures r.Success? && v == w ==> r.value == v
    {
      if ValidateVertex(v).Fail? || ValidateVertex(w).Fail? {
        return Failure(IllegalArgument);
      }
      var bfs := new DeluxBfs.Pair(G, v, w);
      return Success(bfs.GetAncestor());
    }

    /** `length(Iterable, Iterable)`: a distance other than -1 is the
        length of an ancestral path between the two lists; lists that share
        a vertex have length 0. */
    method LengthOfLists(v: Option<seq<int>>, w: Option<seq<int>>) returns (r: Result<int>)
      requires IsDigraph(G)
      ensures !(v.Some? && w.Some? && AllVertices(G, v.value) && AllVertices(G, w.value)) <==>
        r == Failure(IllegalArgument)
      ensures r.Success? && r.value != -1 ==> exists a :: Meets(G, AsSet(v.value), AsSet(w.value), a, r.value)
      ensures r.Success? && (exists x | x in v.value :: x in w.value) ==> r.value == 0
    {
      var ov := ValidateVertices(v);
      if ov.Fail? {
        return Failure(IllegalArgument);
      }
      var ow := ValidateVertices(w);
      if ow.Fail? {
        return Failure(IllegalArgument);
      }
      var bfs := new DeluxBfs.Lists(G, v.value, w.value);
      return Success(bfs.GetAncestorDistance());
    }

    /** `ancestor(Iterable, Iterable)`: a vertex other than -1 is a common
        ancestor of the two lists; lists that share a vertex yield a shared
        vertex. */
    method AncestorOfLists(v: Option<seq<int>>, w: Option<seq<int>>) returns (r: Result<int>)
      requires IsDigraph(G)
      ensures !(v.Some? && w.Some? && AllVertices(G, v.value) && AllVertices(G, w.value)) <==>
        r == Failure(IllegalArgument)
      ensures r.Success? && r.value != -1 ==> exists d :: Meets(G, AsSet(v.value), AsSet(w.value), r.value, d)
      ensures r.Success? && (exists x | x in v.value :: x in w.value) ==> r.value in v.value && r.value in w.value
    {
      var ov := ValidateVertices(v);
      if ov.Fail? {
        return Failure(IllegalArgument);
      }
      var ow := ValidateVertices(w);
      if ow.Fail? {
        return Failure(IllegalArgument);
      }
      var bfs := new DeluxBfs.Lists(G, v.value, w.value);
      return Success(bfs.GetAncestor());
    }
  }

  /** `SAP(G)`: throws on a null graph. */
  method Create(G: Option<Digraph>) returns (r: Result<Sap>)
    requires G.Some? ==> IsDigraph(G.value)
    ensures G.None? ==> r == Failure(IllegalArgument)
    ensures G.Some? ==> r.Success? && r.value.G == G.value
  {
    if G.None? {
      return Failure(IllegalArgument);
    }
    var sap := new Sap(G.value);
    return Success(sap);
  }
}
