/** `Percolation`: an n-by-n grid of sites, each open or blocked, with two
    virtual sites: `virtualTopSite` (index n*n), joined to every top-row
    site in `grid`, and `virtualBottomSite` (index n*n+1), joined to every
    bottom-row site in `bottomSiteGrid`. The system percolates when the
    two virtual sites are connected in `grid`; `grid` is joined to the
    virtual bottom only through a site that is connected to both, which
    keeps bottom-row sites from looking full ("backwash"). */
module Percolations {
  import opened Common
  import opened Arithmetic
  import opened UnionFinds

  /** `isValidSite`: rows and columns are numbered from 1 to n. */
  predicate ValidSite(n: int, row: int, col: int) {
    0 < row && 0 < col && row <= n && col <= n
  }

  /** `getIndex`: row-major numbering from 0. */
  function Index(n: int, row: int, col: int): int {
    (row - 1) * n + col - 1
  }

  /** Valid sites are numbered 0 .. n*n-1; the top row gets 0 .. n-1 and
      the bottom row n*n-n .. n*n-1. */
  lemma IndexRange(n: int, row: int, col: int)
    requires n > 0 && ValidSite(n, row, col)
    ensures 0 <= Index(n, row, col) < n * n
    ensures row == 1 <==> Index(n, row, col) < n
    ensures row == n <==> Index(n, row, col) >= n * n - n
  {
    assert (n - 1) * n == n * n - n;
    MulMonotone(row - 1, n - 1, n);
    if row >= 2 {
      MulMonotone(1, row - 1, n);
    }
    if row <= n - 1 {
      MulMonotone(row - 1, n - 2, n);
      assert (n - 2) * n == n * n - 2 * n;
    }
  }

  /** Different valid sites get different indices. */
  lemma IndexInjective(n: int, r1: int, c1: int, r2: int, c2: int)
    requires n > 0 && ValidSite(n, r1, c1) && ValidSite(n, r2, c2)
    requires Index(n, r1, c1) == Index(n, r2, c2)
    ensures r1 == r2 && c1 == c2
  {
    DivUnique(Index(n, r1, c1), n, r1 - 1, c1 - 1);
    DivUnique(Index(n, r2, c2), n, r2 - 1, c2 - 1);
  }

  /** Every index 0 .. n*n-1 belongs to a valid site. */
  lemma IndexOnto(n: int, x: int)
    requires n > 0 && 0 <= x < n * n
    ensures ValidSite(n, x / n + 1, x % n + 1) && Index(n, x / n + 1, x % n + 1) == x
  {
    if x / n >= n {
      MulMonotone(n, x / n, n);
    }
  }

  /** The sites `open` tries as neighbours of (row, col), in its order:
      above, right, below, left. */
  function Adjacent(row: int, col: int): seq<(int, int)> {
    [(row - 1, col), (row, col + 1), (row + 1, col), (row, col - 1)]
  }

  /** The index of the `k`-th neighbour of (row, col). */
  function NeighbourIndex(n: int, row: int, col: int, k: int): int
    requires 0 <= k < 4
  {
    Index(n, Adjacent(row, col)[k].0, Adjacent(row, col)[k].1)
  }

  /** The `k`-th neighbour of (row, col) is a valid site and in `open`. */
  ghost predicate OpenNeighbour(n: int, open: set<int>, row: int, col: int, k: int) {
    && 0 <= k < 4
    && ValidSite(n, Adjacent(row, col)[k].0, Adjacent(row, col)[k].1)
    && NeighbourIndex(n, row, col, k) in open
  }

  /** `connect`'s test for joining `grid` to the virtual bottom, stated on
      the labellings `g` of `grid` and `b` of `bottomSiteGrid` before the
      merge of `curr` and `adj`: the merged component will reach the
      virtual bottom in `b` and the virtual top in `g`. */
  ghost predicate Backwash(n: int, g: seq<int>, b: seq<int>, curr: int, adj: int) {
    && (Same(b, adj, n * n + 1) || Same(b, curr, n * n + 1))
    && (Same(g, adj, n * n) || Same(g, curr, n * n))
  }

  /** One call of `connect` for the open site `curr` and the site
      (adjRow, adjCol), in a system whose open sites are `open`, takes the
      labellings `g` and `b` to `g'` and `b'`: a valid, open neighbour that
      is not yet connected in `grid` is merged with `curr` in both
      structures, and in `grid` the virtual bottom joins in when
      `Backwash` holds; otherwise nothing changes. */
  ghost predicate Connects(n: int, open: set<int>, g: seq<int>, b: seq<int>, g': seq<int>, b': seq<int>,
                           curr: int, adjRow: int, adjCol: int)
  {
    var adj := Index(n, adjRow, adjCol);
    if ValidSite(n, adjRow, adjCol) && adj in open && !Same(g, curr, adj) then
      && Merged(b, b', curr, adj, adj)
      && Merged(g, g', curr, adj, if Backwash(n, g, b, curr, adj) then n * n + 1 else adj)
    else
      g' == g && b' == b
  }

  /** The loop of `open` for the site `index` at (row, col): `trace[k + 1]`
      is `trace[k]` after the call of `connect` for the `k`-th neighbour;
      each entry is the pair of labellings of `grid` and `bottomSiteGrid`. */
  ghost predicate OpenSteps(n: int, open: set<int>, index: int, row: int, col: int, trace: seq<(seq<int>, seq<int>)>) {
    && |trace| == 5
    && forall k | 0 <= k < 4 ::
         Connects(n, open, trace[k].0, trace[k].1, trace[k + 1].0, trace[k + 1].1, index, Adjacent(row, col)[k].0, Adjacent(row, col)[k].1)
  }

  /** What one call of `connect` does: it grows both structures only
      through `curr`'s component, connects `curr` with a valid open
      neighbour, and puts into `curr`'s component only sites that were
      with `curr`, with that neighbour, or (in `grid`) with the virtual
      bottom. */
  lemma ConnectEffect(n: int, open: set<int>, g: seq<int>, b: seq<int>, g': seq<int>, b': seq<int>,
                      curr: int, adjRow: int, adjCol: int)
    requires n > 0 && |g| == n * n + 2 && |b| == n * n + 2 && 0 <= curr < n * n
    requires Connects(n, open, g, b, g', b', curr, adjRow, adjCol)
    ensures |g'| == n * n + 2 && |b'| == n * n + 2
    ensures Through(g, g', curr) && Through(b, b', curr)
    ensures ValidSite(n, adjRow, adjCol) && Index(n, adjRow, adjCol) in open ==> Same(g', curr, Index(n, adjRow, adjCol))
    ensures forall x | Same(g', x, curr) ::
      || Same(g, x, curr) || Same(g, x, n * n + 1)
      || (ValidSite(n, adjRow, adjCol) && Index(n, adjRow, adjCol) in open && Same(g, x, Index(n, adjRow, adjCol)))
    ensures forall x | Same(b', x, curr) ::
      || Same(b, x, curr)
      || (ValidSite(n, adjRow, adjCol) && Index(n, adjRow, adjCol) in open && Same(b, x, Index(n, adjRow, adjCol)))
  {
    var adj := Index(n, adjRow, adjCol);
    if ValidSite(n, adjRow, adjCol) && adj in open && !Same(g, curr, adj) {
      IndexRange(n, adjRow, adjCol);
      var r := if Backwash(n, g, b, curr, adj) then n * n + 1 else adj;
      MergedMeaning(g, g', curr, adj, r);
      MergedMeaning(b, b', curr, adj, adj);
      forall x | Same(g', x, curr)
        ensures Touches(g, x, curr, adj, r)
      {
        assert Touches(g, curr, curr, adj, r);
      }
      forall x | Same(b', x, curr)
        ensures Touches(b, x, curr, adj, adj)
      {
        assert Touches(b, curr, curr, adj, adj);
      }
    } else {
      ThroughSame(g, curr);
      ThroughSame(b, curr);
    }
  }

  /** The effect `open` promises for the site at (row, col), from the
      labellings `g0`, `b0` of `grid` and `bottomSiteGrid` to `g`, `b`:
      in `grid` the site is connected with each valid open neighbour;
      both structures grow only through the site's component; and that
      component gains only sites that were with the site, with a valid
      open neighbour, or (in `grid`) with the virtual bottom. */
  ghost predicate Opened(n: int, open: set<int>, row: int, col: int, g0: seq<int>, b0: seq<int>, g: seq<int>, b: seq<int>) {
    var index := Index(n, row, col);
    && (forall k | OpenNeighbour(n, open, row, col, k) :: Same(g, index, NeighbourIndex(n, row, col, k)))
    && Through(g0, g, index) && Through(b0, b, index)
    && (forall x | Same(g, x, index) ::
          || Same(g0, x, index) || Same(g0, x, n * n + 1)
          || exists k | OpenNeighbour(n, open, row, col, k) :: Same(g0, x, NeighbourIndex(n, row, col, k)))
    && (forall x | Same(b, x, index) ::
          || Same(b0, x, index)
          || exists k | OpenNeighbour(n, open, row, col, k) :: Same(b0, x, NeighbourIndex(n, row, col, k)))
  }

  /** The first `j` calls of `connect` in `open`, from the labelling `g0`
      of `grid` before the site `index` was opened (for n == 1, `open`
      first joins `index` to the virtual bottom): both structures grow
      only through `index`'s component; `index` is connected in `grid`
      with each of those neighbours that is valid and open; and its
      component gains only sites that were with it, with such a neighbour,
      or (in `grid`) with the virtual bottom. */
  lemma {:induction false} OpenStepsUpTo(n: int, open: set<int>, index: int, row: int, col: int,
                                         trace: seq<(seq<int>, seq<int>)>, g0: seq<int>, j: int)
    requires n > 0 && ValidSite(n, row, col) && index == Index(n, row, col)
    requires OpenSteps(n, open, index, row, col, trace)
    requires |g0| == n * n + 2 && |trace[0].1| == n * n + 2
    requires trace[0].0 == g0 || Merged(g0, trace[0].0, index, n * n + 1, n * n + 1)
    requires 0 <= j <= 4
    ensures j == 4 ==> Opened(n, open, row, col, g0, trace[0].1, trace[4].0, trace[4].1)
    ensures |trace[j].0| == n * n + 2 && |trace[j].1| == n * n + 2
    ensures Through(g0, trace[j].0, index) && Through(trace[0].1, trace[j].1, index)
    ensures forall k | 0 <= k < j && OpenNeighbour(n, open, row, col, k) ::
      Same(trace[j].0, index, NeighbourIndex(n, row, col, k))
    ensures forall x | Same(trace[j].0, x, index) ::
      || Same(g0, x, index) || Same(g0, x, n * n + 1)
      || exists k | 0 <= k < j && OpenNeighbour(n, open, row, col, k) :: Same(g0, x, NeighbourIndex(n, row, col, k))
    ensures forall x | Same(trace[j].1, x, index) ::
      || Same(trace[0].1, x, index)
      || exists k | 0 <= k < j && OpenNeighbour(n, open, row, col, k) :: Same(trace[0].1, x, NeighbourIndex(n, row, col, k))
    decreases j
  {
    var b0 := trace[0].1;
    IndexRange(n, row, col);
    if j == 0 {
      if trace[0].0 == g0 {
        ThroughSame(g0, index);
      } else {
        MergedMeaning(g0, trace[0].0, index, n * n + 1, n * n + 1);
        forall x | Same(trace[0].0, x, index)
          ensures Same(g0, x, index) || Same(g0, x, n * n + 1)
        {
          assert Touches(g0, index, index, n * n + 1, n * n + 1);
        }
      }
      ThroughSame(b0, index);
    } else {
      var k := j - 1;
      OpenStepsUpTo(n, open, index, row, col, trace, g0, k);
      var g, b, g', b' := trace[k].0, trace[k].1, trace[j].0, trace[j].1;
      var adjRow, adjCol := Adjacent(row, col)[k].0, Adjacent(row, col)[k].1;
      assert Connects(n, open, g, b, g', b', index, adjRow, adjCol);
      ConnectEffect(n, open, g, b, g', b', index, adjRow, adjCol);
      ThroughTrans(g0, g, g', index);
      ThroughTrans(b0, b, b', index);
      var adj := NeighbourIndex(n, row, col, k);
      forall x | Same(g', x, index)
        ensures || Same(g0, x, index) || Same(g0, x, n * n + 1)
                || exists i | 0 <= i < j && OpenNeighbour(n, open, row, col, i) :: Same(g0, x, NeighbourIndex(n, row, col, i))
      {
        if Same(g, x, index) {
        } else if Same(g, x, n * n + 1) {
          assert Same(g0, x, n * n + 1);
        } else {
          assert OpenNeighbour(n, open, row, col, k) && Same(g0, x, adj);
        }
      }
      forall x | Same(b', x, index)
        ensures || Same(b0, x, index)
                || exists i | 0 <= i < j && OpenNeighbour(n, open, row, col, i) :: Same(b0, x, NeighbourIndex(n, row, col, i))
      {
        if !Same(b, x, index) {
          assert OpenNeighbour(n, open, row, col, k) && Same(b0, x, adj);
        }
      }
    }
  }

  class Percolation {
    const n: int
    var countOpen: int
    const grid: UnionFind
    const bottomSiteGrid: UnionFind
    const boolGrid: array<bool>
    const virtualTopSite: int
    const virtualBottomSite: int
    /** The indices of the open sites. */
    ghost var openSet: set<int>

    ghost predicate Shape() {
      && n > 0
      && virtualTopSite == n * n && virtualBottomSite == n * n + 1
      && boolGrid.Length == n * n + 2
      && grid.id.Length == n * n + 2 && bottomSiteGrid.id.Length == n * n + 2
      && grid.id != bottomSiteGrid.id
    }

    /** `countOpen` counts the open sites, and the virtual sites are
        never open. */
    ghost predicate Counted()
      reads this, boolGrid
    {
      && Shape()
      && (forall x | 0 <= x < boolGrid.Length :: boolGrid[x] <==> x in openSet)
      && (forall x | x in openSet :: 0 <= x < n * n)
      && countOpen == |openSet|
    }

    /** Every top-row site is joined to the virtual top in `grid`, every
        bottom-row site to the virtual bottom in `bottomSiteGrid`; on a
        one-site grid, an open site percolates. */
    ghost predicate Joined()
      reads this, grid.id, bottomSiteGrid.id
      requires Shape()
    {
      && (forall x | 0 <= x < n :: grid.Connected(x, virtualTopSite))
      && (forall x | n * n - n <= x < n * n :: bottomSiteGrid.Connected(x, virtualBottomSite))
      && (n == 1 && 0 in openSet ==> Percolates())
    }

    /** A blocked site is joined to nothing else, except that the top row
        shares the virtual top in `grid` and the bottom row the virtual
        bottom in `bottomSiteGrid`: unions only ever involve open sites. */
    ghost predicate Isolated()
      reads this, boolGrid, grid.id, bottomSiteGrid.id
      requires Shape()
    {
      && (forall x | n <= x < n * n && !boolGrid[x] :: grid.Alone(x))
      && (forall x | 0 <= x < n * n - n && !boolGrid[x] :: bottomSiteGrid.Alone(x))
    }

    ghost predicate Valid()
      reads this, boolGrid, grid.id, bottomSiteGrid.id
    {
      Counted() && Joined() && Isolated()
    }

    /** Connections in both structures only ever grow. */
    twostate predicate Grown()
      reads grid.id, bottomSiteGrid.id
      requires Shape()
    {
      && (forall x, y | 0 <= x < n * n + 2 && 0 <= y < n * n + 2 :: old(grid.Connected(x, y)) ==> grid.Connected(x, y))
      && (forall x, y | 0 <= x < n * n + 2 && 0 <= y < n * n + 2 ::
            old(bottomSiteGrid.Connected(x, y)) ==> bottomSiteGrid.Connected(x, y))
    }

    constructor (n: int)
      requires n > 0
      ensures Valid() && this.n == n && fresh(boolGrid) && fresh(grid.id) && fresh(bottomSiteGrid.id)
      ensures openSet == {} && NumberOfOpenSites() == 0 && !Percolates()
    {
      this.n := n;
      var gridSize := n * n + 2;
      grid := new UnionFind(gridSize);
      bottomSiteGrid := new UnionFind(gridSize);
      boolGrid := new bool[gridSize](_ => false);
      virtualTopSite := gridSize - 2;
      virtualBottomSite := gridSize - 1;
      countOpen := 0;
      openSet := {};
      new;
      InitializeSites();
    }

    /** Joins the top row to the virtual top in `grid` and the bottom row
        to the virtual bottom in `bottomSiteGrid`; the virtual bottom stays
        apart in `grid`. */
    method InitializeSites()
      requires Counted() && openSet == {}
      requires forall x | 0 <= x < n * n + 2 :: grid.Alone(x)
      requires forall x | 0 <= x < n * n + 2 :: bottomSiteGrid.Alone(x)
      modifies grid.id, bottomSiteGrid.id
      ensures Valid()
      ensures !Percolates()
    {
      JoinTopRow();
      assert grid.Alone(virtualBottomSite);
      JoinBottomRow();
      assert grid.Alone(virtualBottomSite);
      assert !grid.Connected(virtualBottomSite, virtualTopSite);
    }

    method JoinTopRow()
      requires Shape()
      requires forall x | 0 <= x < n * n + 2 :: grid.Alone(x)
      modifies grid.id
      ensures forall x | 0 <= x < n :: grid.Connected(x, virtualTopSite)
      ensures forall x | n <= x < n * n + 2 && x != virtualTopSite :: grid.Alone(x)
    {
      for i := 1 to n + 1
        invariant forall x | 0 <= x < i - 1 :: grid.Connected(x, virtualTopSite)
        invariant forall x | i - 1 <= x < n * n + 2 && x != virtualTopSite :: grid.Alone(x)
      {
        grid.Union(Index(n, 1, i), virtualTopSite);
      }
    }

    method JoinBottomRow()
      requires Shape()
      requires forall x | 0 <= x < n * n + 2 :: bottomSiteGrid.Alone(x)
      modifies bottomSiteGrid.id
      ensures forall x | n * n - n <= x < n * n :: bottomSiteGrid.Connected(x, virtualBottomSite)
      ensures forall x | 0 <= x < n * n - n :: bottomSiteGrid.Alone(x)
    {
      var base := n * n - n;
      assert (n - 1) * n == base;
      for i := 1 to n + 1
        invariant forall x | base <= x < base + i - 1 :: bottomSiteGrid.Connected(x, virtualBottomSite)
        invariant forall x | 0 <= x < base :: bottomSiteGrid.Alone(x)
      {
        assert Index(n, n, i) == base + i - 1;
        bottomSiteGrid.Union(Index(n, n, i), virtualBottomSite);
      }
    }

    function IsValidSite(row: int, col: int): (b: bool)
      requires Shape()
      ensures b <==> ValidSite(n, row, col)
      ensures b ==> 0 <= GetIndex(row, col) < n * n
    {
      if 0 < row && 0 < col && row <= n && col <= n then
        IndexRange(n, row, col);
        true
      else
        false
    }

    function GetIndex(row: int, col: int): int {
      Index(n, row, col)
    }

    function IsOpen(row: int, col: int): (r: Result<bool>)
      reads this, boolGrid
      requires Counted()
      ensures !ValidSite(n, row, col) ==> r == Failure(IllegalArgument)
      ensures ValidSite(n, row, col) ==> r == Success(Index(n, row, col) in openSet)
    {
      if !IsValidSite(row, col) then Failure(IllegalArgument)
      else Success(boolGrid[GetIndex(row, col)])
    }

    /** A site is full when it is open and joined to the virtual top. */
    function IsFull(row: int, col: int): (r: Result<bool>)
      reads this, boolGrid, grid.id, bottomSiteGrid.id
      requires Valid()
      ensures !ValidSite(n, row, col) ==> r == Failure(IllegalArgument)
      ensures ValidSite(n, row, col) ==>
        r.Success? && (r.value <==> Index(n, row, col) in openSet && grid.Connected(Index(n, row, col), virtualTopSite))
      ensures r == Success(true) ==> IsOpen(row, col) == Success(true)
    {
      if !IsValidSite(row, col) then Failure(IllegalArgument)
      else
        var index := GetIndex(row, col);
        Success(IsOpen(row, col) == Success(true) && grid.Connected(index, virtualTopSite))
    }

    function NumberOfOpenSites(): (c: int)
      reads this, boolGrid
      requires Counted()
      ensures c == |openSet| && 0 <= c
    {
      countOpen
    }

    /** The system percolates: the virtual top and the virtual bottom carry
        one component label in `grid`. */
    predicate Percolates()
      reads grid.id
      requires Shape()
      ensures Percolates() <==> grid.id[n * n] == grid.id[n * n + 1]
    {
      grid.Connected(virtualTopSite, virtualBottomSite)
    }

    /** Joins the open site `currIndex` with the site (adjRow, adjCol) when
        that one is valid, open and not yet connected in `grid`; when the
        merged component then reaches the virtual bottom in
        `bottomSiteGrid` and the virtual top in `grid`, joins it to the
        virtual bottom in `grid` too. */
    method Connect(currIndex: int, adjIndex: int, adjRow: int, adjCol: int)
      requires Valid() && currIndex in openSet
      requires ValidSite(n, adjRow, adjCol) ==> adjIndex == Index(n, adjRow, adjCol)
      modifies grid.id, bottomSiteGrid.id
      ensures Valid() && Grown()
      ensures Connects(n, openSet, old(grid.id[..]), old(bottomSiteGrid.id[..]), grid.id[..], bottomSiteGrid.id[..],
                       currIndex, adjRow, adjCol)
    {
      if IsValidSite(adjRow, adjCol) && IsOpen(adjRow, adjCol) == Success(true) && !grid.Connected(currIndex, adjIndex) {
        ghost var g, b := grid.id[..], bottomSiteGrid.id[..];
        UnionOpen(currIndex, adjIndex);
        ghost var mid := grid.id[..];
        assert bottomSiteGrid.Connected(adjIndex, virtualBottomSite) <==>
          Same(b, adjIndex, virtualBottomSite) || Same(b, currIndex, virtualBottomSite) by {
          assert Touches(b, adjIndex, currIndex, adjIndex, adjIndex);
        }
        assert grid.Connected(adjIndex, virtualTopSite) <==>
          Same(g, adjIndex, virtualTopSite) || Same(g, currIndex, virtualTopSite) by {
          assert Touches(g, adjIndex, currIndex, adjIndex, adjIndex);
        }
        if bottomSiteGrid.Connected(adjIndex, virtualBottomSite) && grid.Connected(adjIndex, virtualTopSite) {
          UnionBottom(adjIndex);
          MergedTwice(g, mid, grid.id[..], currIndex, adjIndex, virtualBottomSite);
        }
      }
    }

    /** The two unions of `connect`, of two open sites in both structures. */
    method UnionOpen(p: int, q: int)
      requires Valid() && p in openSet && q in openSet
      modifies grid.id, bottomSiteGrid.id
      ensures Valid() && Grown()
      ensures Merged(old(grid.id[..]), grid.id[..], p, q, q)
      ensures Merged(old(bottomSiteGrid.id[..]), bottomSiteGrid.id[..], p, q, q)
    {
      grid.Union(p, q);
      bottomSiteGrid.Union(p, q);
    }

    /** The union of an open site with the virtual bottom in `grid`. */
    method UnionBottom(x: int)
      requires Valid() && x in openSet
      modifies grid.id
      ensures Valid() && Grown()
      ensures Merged(old(grid.id[..]), grid.id[..], x, virtualBottomSite, virtualBottomSite)
    {
      grid.Union(x, virtualBottomSite);
    }

    /** Opens a blocked site and joins it to its open orthogonal
        neighbours; opening an open site changes nothing. The ghost
        `trace` records the labellings of `grid` and `bottomSiteGrid`
        between the four calls of `connect`. */
    method Open(row: int, col: int) returns (o: Outcome, ghost trace: seq<(seq<int>, seq<int>)>)
      requires Valid()
      modifies this, boolGrid, grid.id, bottomSiteGrid.id
      ensures Valid() && Grown()
      ensures !ValidSite(n, row, col) ==>
        o == Fail(IllegalArgument) && openSet == old(openSet) && countOpen == old(countOpen) &&
        unchanged(grid.id) && unchanged(bottomSiteGrid.id)
      ensures ValidSite(n, row, col) ==> o == Pass && openSet == old(openSet) + {Index(n, row, col)}
      ensures ValidSite(n, row, col) && Index(n, row, col) in old(openSet) ==>
        countOpen == old(countOpen) && unchanged(grid.id) && unchanged(bottomSiteGrid.id)
      ensures ValidSite(n, row, col) && Index(n, row, col) !in old(openSet) ==>
        && countOpen == old(countOpen) + 1
        // the four calls of `connect`, after the n == 1 union with the virtual bottom
        && OpenSteps(n, openSet, Index(n, row, col), row, col, trace)
        && trace[0].1 == old(bottomSiteGrid.id[..])
        && (if n == 1 then Merged(old(grid.id[..]), trace[0].0, Index(n, row, col), virtualBottomSite, virtualBottomSite)
            else trace[0].0 == old(grid.id[..]))
        && trace[4] == (grid.id[..], bottomSiteGrid.id[..])
        // and their effect
        && Opened(n, openSet, row, col, old(grid.id[..]), old(bottomSiteGrid.id[..]), grid.id[..], bottomSiteGrid.id[..])
      ensures ValidSite(n, row, col) && n == 1 ==> Percolates()
    {
      trace := [];
      if !IsValidSite(row, col) {
        return Fail(IllegalArgument), trace;
      }
      if IsOpen(row, col) == Success(false) {
        var index := GetIndex(row, col);
        boolGrid[index] := true;
        countOpen := countOpen + 1;
        openSet := openSet + {index};
        if n == 1 {
          assert grid.Connected(index, virtualTopSite);
          grid.Union(index, virtualBottomSite);
        }
        trace := ConnectNeighbours(index, row, col);
        OpenStepsUpTo(n, openSet, index, row, col, trace, old(grid.id[..]), 4);
      }
      return Pass, trace;
    }

    /** The loop of `open`: `connect` with the four neighbours in turn. */
    method ConnectNeighbours(index: int, row: int, col: int) returns (ghost trace: seq<(seq<int>, seq<int>)>)
      requires Valid() && ValidSite(n, row, col) && index == Index(n, row, col) && index in openSet
      modifies grid.id, bottomSiteGrid.id
      ensures Valid() && Grown()
      ensures OpenSteps(n, openSet, index, row, col, trace)
      ensures trace[0] == (old(grid.id[..]), old(bottomSiteGrid.id[..])) && trace[4] == (grid.id[..], bottomSiteGrid.id[..])
    {
      trace := [(grid.id[..], bottomSiteGrid.id[..])];
      var adjacentRowCol := [(row - 1, col), (row, col + 1), (row + 1, col), (row, col - 1)];
      assert adjacentRowCol == Adjacent(row, col);
      for k := 0 to 4
        invariant Valid() && Grown()
        invariant |trace| == k + 1 && trace[0] == (old(grid.id[..]), old(bottomSiteGrid.id[..]))
        invariant trace[k] == (grid.id[..], bottomSiteGrid.id[..])
        invariant forall i | 0 <= i < k ::
          Connects(n, openSet, trace[i].0, trace[i].1, trace[i + 1].0, trace[i + 1].1, index, Adjacent(row, col)[i].0, Adjacent(row, col)[i].1)
      {
        var adjRow := adjacentRowCol[k].0;
        var adjCol := adjacentRowCol[k].1;
        var adjIndex := GetIndex(adjRow, adjCol);
        Connect(index, adjIndex, adjRow, adjCol);
        trace := trace + [(grid.id[..], bottomSiteGrid.id[..])];
      }
    }
  }

  /** `new Percolation(n)`: rejects n <= 0; otherwise a grid with every
      site blocked that does not percolate. */
  method Create(n: int) returns (r: Result<Percolation>)
    ensures n <= 0 ==> r == Failure(IllegalArgument)
    ensures n > 0 ==>
      && r.Success? && fresh(r.value) && r.value.Valid() && r.value.n == n
      && fresh(r.value.boolGrid) && fresh(r.value.grid.id) && fresh(r.value.bottomSiteGrid.id)
      && r.value.NumberOfOpenSites() == 0 && !r.value.Percolates()
  {
    if n <= 0 {
      return Failure(IllegalArgument);
    }
    var p := new Percolation(n);
    return Success(p);
  }
}
