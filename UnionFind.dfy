/** The union-find structure percolation relies on, modelled as a
    component-id array: two sites are connected iff they carry the same id,
    and a union relabels one component with the other's id. The weighting
    and path compression of `WeightedQuickUnionUF` change only speed, not
    which sites are connected. */
module UnionFinds {

  /** `x` and `y` carry the same component id in the labelling `ids`. */
  predicate Same(ids: seq<int>, x: int, y: int)
  {
    0 <= x < |ids| && 0 <= y < |ids| && ids[x] == ids[y]
  }

  /** `x` lies in the component of `p`, `q` or `r` of `ids`. */
  predicate Touches(ids: seq<int>, x: int, p: int, q: int, r: int)
  {
    Same(ids, x, p) || Same(ids, x, q) || Same(ids, x, r)
  }

  /** `after` is `before` with the components of `p`, `q` and `r` merged
      into one and no other change: two sites are connected afterwards iff
      they were before, or each touched one of those components. */
  ghost predicate Merged(before: seq<int>, after: seq<int>, p: int, q: int, r: int)
  {
    && |after| == |before|
    && forall x, y {:trigger Same(after, x, y)} {:trigger Same(before, x, y)} | 0 <= x < |before| && 0 <= y < |before| ::
         Same(after, x, y) <==> Same(before, x, y) || (Touches(before, x, p, q, r) && Touches(before, y, p, q, r))
  }

  /** `after` keeps every connection of `before`, and every connection
      it adds lies inside the component of `c`. */
  ghost predicate Through(before: seq<int>, after: seq<int>, c: int)
  {
    && |after| == |before|
    && (forall x, y | Same(before, x, y) :: Same(after, x, y))
    && (forall x, y | Same(after, x, y) :: Same(before, x, y) || (Same(after, x, c) && Same(after, y, c)))
  }

  lemma ThroughSame(ids: seq<int>, c: int)
    ensures Through(ids, ids, c)
  {
  }

  /** Growth through `c` composes. */
  lemma ThroughTrans(a: seq<int>, b: seq<int>, c: seq<int>, site: int)
    requires Through(a, b, site) && Through(b, c, site)
    ensures Through(a, c, site)
  {
    forall x, y | Same(c, x, y)
      ensures Same(a, x, y) || (Same(c, x, site) && Same(c, y, site))
    {
      if Same(b, x, y) && !Same(a, x, y) {
        assert Same(b, x, site) && Same(b, y, site);
      }
    }
  }

  /** A merge connects the sites it merges, and grows only through the
      merged component. */
  lemma MergedMeaning(before: seq<int>, after: seq<int>, p: int, q: int, r: int)
    requires Merged(before, after, p, q, r)
    requires 0 <= p < |before| && 0 <= q < |before| && 0 <= r < |before|
    ensures Same(after, p, q) && Same(after, p, r)
    ensures Through(before, after, p)
  {
    assert Touches(before, p, p, q, r);
    forall x, y | Same(after, x, y) && !Same(before, x, y)
      ensures Same(after, x, p) && Same(after, y, p)
    {
      assert Touches(before, x, p, q, r) && Touches(before, y, p, q, r);
    }
  }

  /** Merging `p` with `q` and then `q` with `r` merges all three at once:
      the two unions `connect` may make in a row. */
  lemma {:induction false} MergedTwice(a: seq<int>, b: seq<int>, c: seq<int>, p: int, q: int, r: int)
    requires 0 <= p < |a| && 0 <= q < |a| && 0 <= r < |a|
    requires Merged(a, b, p, q, q) && Merged(b, c, q, r, r)
    ensures Merged(a, c, p, q, r)
  {
    forall x | 0 <= x < |a|
      ensures Touches(b, x, q, r, r) <==> Touches(a, x, p, q, r)
    {
      assert Same(b, x, q) <==> Touches(a, x, p, q, q) by {
        assert Touches(a, q, p, q, q);
      }
    }
  }

  class UnionFind {
    const id: array<int>

    constructor (size: nat)
      ensures fresh(id) && id.Length == size
      ensures forall x, y | 0 <= x < size && 0 <= y < size :: Connected(x, y) <==> x == y
      ensures forall x | 0 <= x < size :: Alone(x)
    {
      id := new int[size](i => i);
    }

    predicate Connected(p: int, q: int)
      reads id
      requires 0 <= p < id.Length && 0 <= q < id.Length
    {
      Same(id[..], p, q)
    }

    /** `x` is a component of its own. */
    ghost predicate Alone(x: int)
      reads id
      requires 0 <= x < id.Length
    {
      forall y | 0 <= y < id.Length && y != x :: !Connected(x, y)
    }

    /** Afterwards `x` and `y` are connected iff they were, or each was in
        `p`'s or `q`'s component; so a site that was alone and is neither
        `p` nor `q` stays alone. */
    method Union(p: int, q: int)
      requires 0 <= p < id.Length && 0 <= q < id.Length
      modifies id
      ensures Merged(old(id[..]), id[..], p, q, q)
      ensures Connected(p, q)
      ensures forall x, y | 0 <= x < id.Length && 0 <= y < id.Length && old(Connected(x, y)) :: Connected(x, y)
      ensures forall x | 0 <= x < id.Length && x != p && x != q && old(Alone(x)) :: Alone(x)
    {
      var pid := id[p];
      var qid := id[q];
      for i := 0 to id.Length
        invariant forall k | 0 <= k < i :: id[k] == (if old(id[k]) == pid then qid else old(id[k]))
        invariant forall k | i <= k < id.Length :: id[k] == old(id[k])
      {
        if id[i] == pid {
          id[i] := qid;
        }
      }
      forall x | 0 <= x < id.Length && x != p && x != q && old(Alone(x))
        ensures Alone(x)
      {
        assert !Touches(old(id[..]), x, p, q, q) by {
          assert old(!Connected(x, p) && !Connected(x, q));
        }
        forall y | 0 <= y < id.Length && y != x
          ensures !Connected(x, y)
        {
          assert old(!Connected(x, y));
          assert !Same(id[..], x, y);
        }
      }
      assert Touches(old(id[..]), p, p, q, q);
    }
  }
}
