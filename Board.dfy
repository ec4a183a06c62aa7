/** `Board`: an n-by-n 8-puzzle board, `0` being the blank. The board
    keeps the caller's array (no copy is taken) and remembers where the
    blank is; `twin` and `neighbors` build new boards from copies. */
module Boards {
  import opened Common
  import opened Arithmetic

  /** Java's `/` on `int`: the quotient is truncated toward zero. */
  function JavaDiv(a: int, b: int): int
    requires b > 0
  {
    if a >= 0 then a / b else -((-a) / b)
  }

  /** Java's `%` on `int`: the remainder takes the sign of `a`. */
  function JavaRem(a: int, b: int): int
    requires b > 0
  {
    a - JavaDiv(a, b) * b
  }

  function Abs(a: int): nat {
    if a < 0 then -a else a
  }

  /** `convert`: the value cell (i, j) holds in the goal board, row by row
      from 1, with the blank in the bottom-right corner. */
  function Goal(n: int, i: int, j: int): int {
    if i == n - 1 && j == n - 1 then 0 else i * n + j + 1
  }

  /** The two per-cell costs the board sums. */
  datatype Measure = Hamming | Manhattan

  /** Hamming: 1 for a non-blank cell holding the wrong value. Manhattan:
      the row and column distance from a non-blank cell to where its value
      belongs, with Java's integer division. */
  function Cost(m: Measure, v: int, n: int, i: int, j: int): nat
    requires n > 0
  {
    match m
    case Hamming => if v != 0 && Goal(n, i, j) != v then 1 else 0
    case Manhattan => if v != 0 then Abs(i - JavaDiv(v - 1, n)) + Abs(j - JavaRem(v - 1, n)) else 0
  }

  /** Cost of the first `j` cells of row `i`. */
  function RowSum(m: Measure, a: array2<int>, i: int, j: int): nat
    reads a
    requires 0 <= i < a.Length0 && 0 <= j <= a.Length1 && a.Length1 > 0
  {
    if j == 0 then 0 else RowSum(m, a, i, j - 1) + Cost(m, a[i, j - 1], a.Length1, i, j - 1)
  }

  /** Cost of the first `i` rows. */
  function GridSum(m: Measure, a: array2<int>, i: int): nat
    reads a
    requires 0 <= i <= a.Length0 && a.Length1 > 0
  {
    if i == 0 then 0 else GridSum(m, a, i - 1) + RowSum(m, a, i - 1, a.Length1)
  }

  ghost predicate Square(a: array2<int>) {
    a.Length0 == a.Length1 && a.Length1 > 0
  }

  ghost predicate IsGoalGrid(a: array2<int>)
    reads a
  {
    forall i, j | 0 <= i < a.Length0 && 0 <= j < a.Length1 :: a[i, j] == Goal(a.Length1, i, j)
  }

  /** Cell (i, j) comes after cell (bi, bj) in row-major order. */
  predicate After(i: int, j: int, bi: int, bj: int) {
    i > bi || (i == bi && j > bj)
  }

  /** (bi, bj) is the last blank in row-major order, or (0, 0) when there
      is none: the constructor's scan keeps overwriting its result. */
  ghost predicate LastBlank(a: array2<int>, bi: int, bj: int)
    reads a
  {
    && 0 <= bi < a.Length0 && 0 <= bj < a.Length1
    && (forall i, j | 0 <= i < a.Length0 && 0 <= j < a.Length1 && After(i, j, bi, bj) :: a[i, j] != 0)
    && (a[bi, bj] == 0 || (bi == 0 && bj == 0))
  }

  /** When the board has a blank, the scan's result is a blank. */
  lemma BlankFound(a: array2<int>, bi: int, bj: int, z: Cell)
    requires LastBlank(a, bi, bj)
    requires 0 <= z.i < a.Length0 && 0 <= z.j < a.Length1 && a[z.i, z.j] == 0
    ensures a[bi, bj] == 0
  {
  }

  /** `b` is `a` with cells (i1, j1) and (i2, j2) exchanged. */
  ghost predicate IsExchange(b: array2<int>, a: array2<int>, i1: int, j1: int, i2: int, j2: int)
    reads a, b
  {
    && b.Length0 == a.Length0 && b.Length1 == a.Length1
    && 0 <= i1 < a.Length0 && 0 <= j1 < a.Length1 && 0 <= i2 < a.Length0 && 0 <= j2 < a.Length1
    && b[i1, j1] == a[i2, j2] && b[i2, j2] == a[i1, j1]
    && forall i, j | 0 <= i < a.Length0 && 0 <= j < a.Length1 && !(i == i1 && j == j1) && !(i == i2 && j == j2) ::
         b[i, j] == a[i, j]
  }

  datatype Cell = Cell(i: int, j: int)

  /** Board `ns[k]` is `a` with the blank moved in direction `dirs[k]`,
      and each has its own array, shared with neither `a` nor another. */
  ghost predicate NeighborsAre(ns: seq<Board>, a: array2<int>, blank: Cell, dirs: seq<Direction>)
    reads a, set k | 0 <= k < |ns| :: ns[k].board
  {
    |ns| == |dirs| &&
    (forall k | 0 <= k < |ns| :: ns[k].board != a) &&
    (forall k, l | 0 <= k < l < |ns| :: ns[k].board != ns[l].board) &&
    forall k | 0 <= k < |ns| ::
      && ns[k].Valid() && ns[k].n == a.Length1
      && IsExchange(ns[k].board, a, blank.i, blank.j, Target(blank, dirs[k]).i, Target(blank, dirs[k]).j)
  }

  /** The cell pair `twin` exchanges: (0,0) with (0,1) unless one of them is
      the blank, then the pair that avoids the blank. */
  function TwinPair(a00: int, a01: int): (r: (Cell, Cell))
    ensures r.0 != r.1
    ensures r.0 in {Cell(0, 0), Cell(0, 1)} && r.1 in {Cell(0, 1), Cell(1, 0)}
    ensures a00 != 0 && a01 != 0 <==> r == (Cell(0, 0), Cell(0, 1))
    ensures a00 == 0 ==> r.0 != Cell(0, 0) && r.1 != Cell(0, 0)
    ensures a00 != 0 && a01 == 0 ==> r.0 != Cell(0, 1) && r.1 != Cell(0, 1)
  {
    if a00 != 0 then
      if a01 != 0 then (Cell(0, 0), Cell(0, 1)) else (Cell(0, 0), Cell(1, 0))
    else (Cell(0, 1), Cell(1, 0))
  }

  /** The directions `neighbors` tries, in its order. The source names a
      step in the column index "up"/"down" and one in the row index
      "right"/"left". */
  datatype Direction = Up | Right | Down | Left

  function Target(blank: Cell, d: Direction): Cell {
    match d
    case Up => Cell(blank.i, blank.j - 1)
    case Right => Cell(blank.i + 1, blank.j)
    case Down => Cell(blank.i, blank.j + 1)
    case Left => Cell(blank.i - 1, blank.j)
  }

  predicate InRange(c: Cell, n: int) {
    0 <= c.i < n && 0 <= c.j < n
  }

  /** `ds` followed by `d` when `d` leads to a cell on the board. */
  function Try(ds: seq<Direction>, blank: Cell, n: int, d: Direction): seq<Direction> {
    if InRange(Target(blank, d), n) then ds + [d] else ds
  }

  /** The directions whose target cell is on the board, in order. */
  function Moves(blank: Cell, n: int): seq<Direction> {
    Try(Try(Try(Try([], blank, n, Up), blank, n, Right), blank, n, Down), blank, n, Left)
  }

  /** A blank on a board with n >= 2 has between two and four neighbours,
      each one orthogonal step away and on the board. */
  lemma MovesCount(blank: Cell, n: int)
    requires n >= 2 && InRange(blank, n)
    ensures 2 <= |Moves(blank, n)| <= 4
    ensures forall k | 0 <= k < |Moves(blank, n)| ::
      InRange(Target(blank, Moves(blank, n)[k]), n) &&
      Abs(Target(blank, Moves(blank, n)[k]).i - blank.i) + Abs(Target(blank, Moves(blank, n)[k]).j - blank.j) == 1
    ensures forall k, l | 0 <= k < l < |Moves(blank, n)| :: Moves(blank, n)[k] != Moves(blank, n)[l]
  {
    assert InRange(Target(blank, Up), n) || InRange(Target(blank, Down), n);
    assert InRange(Target(blank, Right), n) || InRange(Target(blank, Left), n);
  }

  /** Every cell costs at most 1 under Hamming, and the blank costs 0. */
  lemma {:induction false} RowHammingBound(a: array2<int>, i: int, j: int, z: Cell)
    requires 0 <= i < a.Length0 && 0 <= j <= a.Length1 && a.Length1 > 0
    requires 0 <= z.i < a.Length0 && 0 <= z.j < a.Length1 && a[z.i, z.j] == 0
    ensures RowSum(Hamming, a, i, j) <= j - (if z.i == i && z.j < j then 1 else 0)
  {
    if j > 0 {
      RowHammingBound(a, i, j - 1, z);
    }
  }

  lemma {:induction false} GridHammingBound(a: array2<int>, i: int, z: Cell)
    requires 0 <= i <= a.Length0 && a.Length1 > 0
    requires 0 <= z.i < a.Length0 && 0 <= z.j < a.Length1 && a[z.i, z.j] == 0
    ensures GridSum(Hamming, a, i) <= i * a.Length1 - (if z.i < i then 1 else 0)
  {
    if i > 0 {
      GridHammingBound(a, i - 1, z);
      RowHammingBound(a, i - 1, a.Length1, z);
      assert (i - 1) * a.Length1 + a.Length1 == i * a.Length1;
    }
  }

  /** With a blank on the board, `hamming` lies between 0 and n*n - 1. */
  lemma HammingBound(a: array2<int>, z: Cell)
    requires Square(a)
    requires InRange(z, a.Length1) && a[z.i, z.j] == 0
    ensures 0 <= GridSum(Hamming, a, a.Length0) <= a.Length0 * a.Length1 - 1
  {
    GridHammingBound(a, a.Length0, z);
  }

  /** Dividing i*n + j by n, for 0 <= j < n, gives back i and j. */
  lemma DivCell(n: int, i: int, j: int)
    requires n > 0 && i >= 0 && 0 <= j < n
    ensures JavaDiv(i * n + j, n) == i && JavaRem(i * n + j, n) == j
  {
    DivUnique(i * n + j, n, i, j);
  }

  /** On the goal board each cell costs nothing under either measure. */
  lemma GoalCellCost(m: Measure, n: int, i: int, j: int)
    requires n > 0 && 0 <= i < n && 0 <= j < n
    ensures Cost(m, Goal(n, i, j), n, i, j) == 0
  {
    if Goal(n, i, j) != 0 {
      DivCell(n, i, j);
    }
  }

  lemma {:induction false} GoalRowSum(m: Measure, a: array2<int>, i: int, j: int)
    requires Square(a) && IsGoalGrid(a) && 0 <= i < a.Length0 && 0 <= j <= a.Length1
    ensures RowSum(m, a, i, j) == 0
  {
    if j > 0 {
      GoalRowSum(m, a, i, j - 1);
      GoalCellCost(m, a.Length1, i, j - 1);
    }
  }

  lemma {:induction false} GoalGridSum(m: Measure, a: array2<int>, i: int)
    requires Square(a) && IsGoalGrid(a) && 0 <= i <= a.Length0
    ensures GridSum(m, a, i) == 0
  {
    if i > 0 {
      GoalGridSum(m, a, i - 1);
      GoalRowSum(m, a, i - 1, a.Length1);
    }
  }

  /** A misplaced tile with a value in 1 .. n*n-1 is at least one step from
      its goal cell. */
  lemma MisplacedCostsMove(v: int, n: int, i: int, j: int)
    requires n > 0 && 0 <= i < n && 0 <= j < n && 0 <= v < n * n
    ensures Cost(Hamming, v, n, i, j) <= Cost(Manhattan, v, n, i, j)
  {
    if v != 0 && Cost(Manhattan, v, n, i, j) == 0 {
      assert v - 1 == i * n + j;
      assert (n - 1) * n + (n - 1) + 1 == n * n;
    }
  }

  lemma {:induction false} RowHammingAtMostManhattan(a: array2<int>, i: int, j: int)
    requires Square(a) && 0 <= i < a.Length0 && 0 <= j <= a.Length1
    requires forall r, c | 0 <= r < a.Length0 && 0 <= c < a.Length1 :: 0 <= a[r, c] < a.Length0 * a.Length1
    ensures RowSum(Hamming, a, i, j) <= RowSum(Manhattan, a, i, j)
  {
    if j > 0 {
      RowHammingAtMostManhattan(a, i, j - 1);
      MisplacedCostsMove(a[i, j - 1], a.Length1, i, j - 1);
    }
  }

  /** On a board holding 0 .. n*n-1, `hamming` never exceeds `manhattan`. */
  lemma {:induction false} HammingAtMostManhattan(a: array2<int>, i: int)
    requires Square(a) && 0 <= i <= a.Length0
    requires forall r, c | 0 <= r < a.Length0 && 0 <= c < a.Length1 :: 0 <= a[r, c] < a.Length0 * a.Length1
    ensures GridSum(Hamming, a, i) <= GridSum(Manhattan, a, i)
  {
    if i > 0 {
      HammingAtMostManhattan(a, i - 1);
      RowHammingAtMostManhattan(a, i - 1, a.Length1);
    }
  }

  /** `copyBoard`: a fresh n-by-n array with the same cells. */
  method CopyBoard(a: array2<int>) returns (copy: array2<int>)
    ensures fresh(copy) && copy.Length0 == a.Length0 && copy.Length1 == a.Length1
    ensures forall i, j | 0 <= i < a.Length0 && 0 <= j < a.Length1 :: copy[i, j] == a[i, j]
  {
    copy := new int[a.Length0, a.Length1];
    for i := 0 to a.Length0
      invariant forall r, c | 0 <= r < i && 0 <= c < a.Length1 :: copy[r, c] == a[r, c]
    {
      for j := 0 to a.Length1
        invariant forall r, c | 0 <= r < i && 0 <= c < a.Length1 :: copy[r, c] == a[r, c]
        invariant forall c | 0 <= c < j :: copy[i, c] == a[i, c]
      {
        copy[i, j] := a[i, j];
      }
    }
  }

  /** `exch`: swaps two cells in place. */
  method Exch(a: array2<int>, i1: int, j1: int, i2: int, j2: int)
    requires 0 <= i1 < a.Length0 && 0 <= j1 < a.Length1 && 0 <= i2 < a.Length0 && 0 <= j2 < a.Length1
    modifies a
    ensures a[i1, j1] == old(a[i2, j2]) && a[i2, j2] == old(a[i1, j1])
    ensures forall i, j | 0 <= i < a.Length0 && 0 <= j < a.Length1 && !(i == i1 && j == j1) && !(i == i2 && j == j2) ::
      a[i, j] == old(a[i, j])
  {
    var temp := a[i1, j1];
    a[i1, j1] := a[i2, j2];
    a[i2, j2] := temp;
  }

  class Board {
    const board: array2<int>
    const n: int
    const blankI: int
    const blankJ: int

    ghost predicate Valid()
      reads board
    {
      Square(board) && n == board.Length1 && LastBlank(board, blankI, blankJ)
    }

    /** Scans every cell, so the last blank in row-major order wins. */
    constructor (blocks: array2<int>)
      requires Square(blocks)
      ensures Valid() && board == blocks
    {
      var size := blocks.Length1;
      var bi, bj := 0, 0;
      for i := 0 to size
        invariant 0 <= bi < size && 0 <= bj < size
        invariant forall r, c | 0 <= r < i && 0 <= c < size && After(r, c, bi, bj) :: blocks[r, c] != 0
        invariant blocks[bi, bj] == 0 || (bi == 0 && bj == 0)
      {
        for j := 0 to size
          invariant 0 <= bi < size && 0 <= bj < size
          invariant forall r, c | 0 <= r < i && 0 <= c < size && After(r, c, bi, bj) :: blocks[r, c] != 0
          invariant forall c | 0 <= c < j && After(i, c, bi, bj) :: blocks[i, c] != 0
          invariant blocks[bi, bj] == 0 || (bi == 0 && bj == 0)
        {
          if blocks[i, j] == 0 {
            bi, bj := i, j;
          }
        }
      }
      board := blocks;
      n := size;
      blankI, blankJ := bi, bj;
    }

    function Dimension(): (d: int)
      reads board
      requires Valid()
      ensures d == board.Length0 == board.Length1
    {
      n
    }

    method ComputeHamming() returns (count: int)
      requires Valid()
      ensures count == GridSum(Hamming, board, n)
    {
      count := 0;
      for i := 0 to n
        invariant count == GridSum(Hamming, board, i)
      {
        for j := 0 to n
          invariant count == GridSum(Hamming, board, i) + RowSum(Hamming, board, i, j)
        {
          if board[i, j] != 0 && Goal(n, i, j) != board[i, j] {
            count := count + 1;
          }
        }
      }
    }

    method ComputeManhattan() returns (total: int)
      requires Valid()
      ensures total == GridSum(Manhattan, board, n)
    {
      total := 0;
      for i := 0 to n
        invariant total == GridSum(Manhattan, board, i)
      {
        for j := 0 to n
          invariant total == GridSum(Manhattan, board, i) + RowSum(Manhattan, board, i, j)
        {
          var curr := board[i, j];
          var goalI := JavaDiv(curr - 1, n);
          var goalJ := JavaRem(curr - 1, n);
          if curr != 0 {
            total := total + Abs(i - goalI) + Abs(j - goalJ);
          }
        }
      }
    }

    /** Stops at the first cell that differs from the goal board. */
    method IsGoal() returns (isGoal: bool)
      requires Valid()
      ensures isGoal <==> IsGoalGrid(board)
      ensures isGoal ==> GridSum(Hamming, board, n) == 0 && GridSum(Manhattan, board, n) == 0
    {
      isGoal := true;
      var i := 0;
      while i < n
        invariant 0 <= i <= n
        invariant isGoal <==> forall r, c | 0 <= r < i && 0 <= c < n :: board[r, c] == Goal(n, r, c)
        invariant !isGoal ==> i < n
      {
        var j := 0;
        while j < n
          invariant 0 <= j <= n
          invariant isGoal <==>
            (forall r, c | 0 <= r < i && 0 <= c < n :: board[r, c] == Goal(n, r, c)) &&
            (forall c | 0 <= c < j :: board[i, c] == Goal(n, i, c))
          invariant !isGoal ==> j < n
        {
          if Goal(n, i, j) != board[i, j] {
            isGoal := false;
            break;
          }
          j := j + 1;
        }
        if !isGoal {
          break;
        }
        i := i + 1;
      }
      if isGoal {
        GoalGridSum(Hamming, board, n);
        GoalGridSum(Manhattan, board, n);
      }
    }

    /** Exchanges a pair of non-blank cells among (0,0), (0,1), (1,0) in a
        copy; this board is left as it was. A board of dimension below 2
        has no cell (0,1) or (1,0), and the source's array access throws. */
    method Twin() returns (r: Result<Board>)
      requires Valid()
      ensures n < 2 <==> r == Failure(IndexOutOfBounds)
      ensures r.Success? ==> fresh(r.value) && fresh(r.value.board) && r.value.Valid() && r.value.n == n
      ensures r.Success? ==>
        IsExchange(r.value.board, board, TwinPair(board[0, 0], board[0, 1]).0.i, TwinPair(board[0, 0], board[0, 1]).0.j,
                   TwinPair(board[0, 0], board[0, 1]).1.i, TwinPair(board[0, 0], board[0, 1]).1.j)
    {
      if n < 2 {
        return Failure(IndexOutOfBounds);
      }
      var twinBoardBlocks := CopyBoard(board);
      var i, j, exchI, exchJ := 0, 0, 0, 0;
      if twinBoardBlocks[0, 0] != 0 {
        if twinBoardBlocks[0, 1] != 0 {
          exchJ := 1;
        } else {
          exchI := 1;
        }
      } else {
        j := 1;
        exchI := 1;
      }
      Exch(twinBoardBlocks, i, j, exchI, exchJ);
      var t := new Board(twinBoardBlocks);
      return Success(t);
    }

    /** `equals`: the same object, or a board of the same dimension with
        equal cells. */
    method Equals(y: Board?) returns (eq: bool)
      requires Valid() && (y != null ==> y.Valid())
      ensures eq <==>
        y != null && y.n == n && forall i, j | 0 <= i < n && 0 <= j < n :: y.board[i, j] == board[i, j]
    {
      if y == this {
        return true;
      }
      if y == null {
        return false;
      }
      if n != y.n {
        return false;
      }
      eq := true;
      var i := 0;
      while i < n
        invariant 0 <= i <= n
        invariant eq <==> forall r, c | 0 <= r < i && 0 <= c < n :: y.board[r, c] == board[r, c]
        invariant !eq ==> i < n
      {
        var j := 0;
        while j < n
          invariant 0 <= j <= n
          invariant eq <==>
            (forall r, c | 0 <= r < i && 0 <= c < n :: y.board[r, c] == board[r, c]) &&
            (forall c | 0 <= c < j :: y.board[i, c] == board[i, c])
          invariant !eq ==> j < n
        {
          if y.board[i, j] != board[i, j] {
            eq := false;
            break;
          }
          j := j + 1;
        }
        if !eq {
          break;
        }
        i := i + 1;
      }
    }

    /** One board per on-board neighbour of the blank, in the order of
        `Moves`, each a copy with the blank exchanged with that neighbour. */
    method Neighbors() returns (neighbors: seq<Board>)
      requires Valid()
      ensures NeighborsAre(neighbors, board, Cell(blankI, blankJ), Moves(Cell(blankI, blankJ), n))
    {
      neighbors := [];
      ghost var blank := Cell(blankI, blankJ);
      ghost var dirs: seq<Direction> := [];
      if blankJ - 1 >= 0 {
        neighbors := EnqueueNeighbor(neighbors, dirs, Up);
      }
      dirs := Try(dirs, blank, n, Up);
      if blankI + 1 < n {
        neighbors := EnqueueNeighbor(neighbors, dirs, Right);
      }
      dirs := Try(dirs, blank, n, Right);
      if blankJ + 1 < n {
        neighbors := EnqueueNeighbor(neighbors, dirs, Down);
      }
      dirs := Try(dirs, blank, n, Down);
      if blankI - 1 >= 0 {
        neighbors := EnqueueNeighbor(neighbors, dirs, Left);
      }
      dirs := Try(dirs, blank, n, Left);
    }

    /** Appends the board obtained by moving the blank in direction `d`. */
    method EnqueueNeighbor(neighbors: seq<Board>, ghost dirs: seq<Direction>, d: Direction) returns (r: seq<Board>)
      requires Valid() && InRange(Target(Cell(blankI, blankJ), d), n)
      requires NeighborsAre(neighbors, board, Cell(blankI, blankJ), dirs)
      ensures NeighborsAre(r, board, Cell(blankI, blankJ), dirs + [d])
      ensures r == neighbors + [r[|neighbors|]]
      ensures fresh(r[|neighbors|]) && fresh(r[|neighbors|].board)
    {
      var copy := CopyBoard(board);
      var target := Target(Cell(blankI, blankJ), d);
      Exch(copy, blankI, blankJ, target.i, target.j);
      var b := new Board(copy);
      r := neighbors + [b];
    }
  }
}
