# Algorithms coursework core, modelled in Dafny

This project models the data structures and algorithms of a set of
algorithms-course assignments:

- **KdTrees**: the 2d-tree of points in the unit square, with insert,
  contains, range search and nearest neighbour.
- **PointSets**: its brute-force reference set.
- **Deques**: the doubly linked double-ended queue.
- **RandomizedQueues**: the resizing-array randomized queue.
- **Boards**: the 8-puzzle board, with hamming, manhattan, goal test,
  twin, equality and neighbours.
- **Percolations**: the n-by-n percolation grid, which keeps two
  union-find structures so that "full" does not suffer from backwash.
- **LockstepBfs**: `DeluxBFS`, the lockstep two-sided breadth-first
  search that finds a common ancestor of two vertices, or of two vertex
  lists, in a digraph.
- **Saps**: `SAP`, the shortest-ancestral-path queries that validate
  their arguments and then run `DeluxBFS`.

The sources name state and operations, and the model keeps those names.
Objects whose fields change in place are Dafny classes:
- the deque's nodes and its ends;
- the randomized queue's array;
- the board's grid;
- the percolation grid and its union-find arrays;
- the kd-tree's nodes;
- the BFS maps.

Each class carries a ghost `Valid()` invariant. Its methods are proved
against pure specification functions:
- for the kd-tree, the functional tree `KdTreeModel.Tree` with `Insert`,
  `Found` and `Nearest`;
- for the BFS, the functional search state `LockstepModel.Search` with
  `Expand`, `MarkSingle` and `MarkList`;
- on sequences, the deque contents and the sorted point list.

The properties the sources promise are then proved as lemmas about those
functions:
- range search returns exactly the points in the query rectangle;
- nearest returns a point of minimal distance;
- every ancestor the BFS reports is joined to both sides by walks whose
  lengths add up to the reported distance;
- hamming never exceeds manhattan.

Points are exact `real` pairs. The algs4 `Point2D` and `RectHV` values
the sources use are written out in `Geometry` as plain definitions:
containment, intersection, squared distances and the `y`-then-`x`
order of `Point2D.compareTo`. Union-find is a component-id array whose
union relabels one component with the other's id.

Inputs that come from outside are parameters:
- Java `null` arguments are `Option` values, and the exceptions are
  `Result`/`Outcome` errors.
- `StdRandom.uniform` is a caller-supplied index.
- A digraph is a `seq<seq<int>>` of adjacency lists. `IsDigraph` states
  that every edge ends at a vertex.

## Model

| member | source | states |
|---|---|---|
| Geometry.RectDistAtMostPointDist | KDTrees/src/KdTree.java:226-228 | a node's region is never farther from the query than a point inside it, which is why pruning on the region distance loses nothing |
| Geometry.IntersectsIffCommonPoint | KDTrees/src/KdTree.java:168-187 | two rectangles intersect iff some point lies in both |
| KdTreeModel.Compare | KDTrees/src/KdTree.java:245-251 | compare is negative iff the node's split coordinate is strictly below the point's, zero iff equal, and lies in -1..1 |
| KdTreeModel.CutIsHalf | KDTrees/src/KdTree.java:51-78 | a cut region keeps the other axis' bounds and replaces exactly the split axis' bound on the requested side |
| KdTreeModel.CutPartitions | KDTrees/src/KdTree.java:51-78 | a point is in the region iff it is in one of the two halves, and only points on the split line are in both |
| KdTreeModel.CutKeepsSide | KDTrees/src/KdTree.java:51-78 | a point of the region on a given side of the line is in that half |
| KdTreeModel.InsertElems | KDTrees/src/KdTree.java:80-102 | insertion adds exactly the new point to the stored points |
| KdTreeModel.InsertSize | KDTrees/src/KdTree.java:82-92 | insertion adds one node, or none when the point is already stored |
| KdTreeModel.InsertDistinct | KDTrees/src/KdTree.java:90-92 | no point is stored twice after an insertion |
| KdTreeModel.SizeIsCount | KDTrees/src/KdTree.java:41-43 | the node count is the number of distinct stored points |
| KdTreeModel.InsertKeepsRoot | KDTrees/src/KdTree.java:84-88 | insertion into an empty subtree creates one node with the given region and orientation, and never changes an existing root |
| KdTreeModel.InsertBounds | KDTrees/src/KdTree.java:95-98 | after insertion every stored point is above, at most or inside a bound iff every old point and the new point are |
| KdTreeModel.InsertOrdered | KDTrees/src/KdTree.java:95-98 | insertion keeps points whose split coordinate is strictly greater in `lb` and the rest in `rt` |
| KdTreeModel.InsertAlternates | KDTrees/src/KdTree.java:46-98 | the root is vertical and each child has the opposite orientation of its parent, before and after insertion |
| KdTreeModel.InsertPartitioned | KDTrees/src/KdTree.java:51-98 | with ties on the side insert sends them to, each child's region is its parent's region cut at the parent's line |
| KdTreeModel.InsertRegions | KDTrees/src/KdTree.java:51-98 | with ties on that side, every node's region contains all points of its subtree, before and after insertion |
| KdTreeModel.AddKeepsInvariant | KDTrees/src/KdTree.java:46-102 | inserting at the root of the unit square keeps the whole tree invariant, and adds the point and at most one node |
| KdTreeModel.AsWrittenAgreesWithoutTies | KDTrees/src/KdTree.java:59-70 | when no ancestor's split coordinate ties the point, `getSubRect` as written builds the same tree as the corrected cut |
| KdTreeModel.AsWrittenKeepsRegionsWithoutTies | KDTrees/src/KdTree.java:51-78 | for points of the unit square without ties, the tree as written keeps every region containing its subtree |
| KdTreeModel.FoundIsRange | KDTrees/src/KdTree.java:158-191 | with the queued children on the corrected sides, the points found are exactly the stored points inside the rectangle |
| KdTreeModel.FoundInElems | KDTrees/src/KdTree.java:165-187 | range reports only stored points |
| KdTreeModel.ChildrenDisjoint | KDTrees/src/KdTree.java:95-98 | the two subtrees of a node store disjoint points, neither of which is the node's own point |
| KdTreeModel.RangeAsWrittenMissesPoint | KDTrees/src/KdTree.java:173-185 | the two-point tree (0.5,0.5), (0.75,0.5) keeps the invariants, yet range as written misses (0.75,0.5) inside [0.6,0.9]x[0.4,0.6], which the corrected range finds |
| KdTreeModel.NearestFromIsNearest | KDTrees/src/KdTree.java:220-243 | the recursive search returns the incoming best or a point of the subtree, no farther than the incoming best or any point of the subtree |
| KdTreeModel.NearestIsNearest | KDTrees/src/KdTree.java:206-243 | nearest is absent iff the tree is empty; otherwise it is a stored point of minimal squared distance to the query |
| KdTreeModel.NearestTieCounterexample | KDTrees/src/KdTree.java:59-98 | after inserting (0.5,0.5), (0.5,0.4), (0.1,0.45) and (0.1,0.3), the regions no longer contain their subtrees, and nearest((0.1,0.3)) returns (0.1,0.45) although (0.1,0.3) is stored |
| KdTrees.Node.constructor | KDTrees/src/KdTree.java:22-28 | a new node is a leaf holding its point, region and orientation |
| KdTrees.KdTree.constructor | KDTrees/src/KdTree.java:32-33 | a new tree is empty |
| KdTrees.KdTree.IsEmpty | KDTrees/src/KdTree.java:36-38 | empty iff no point is stored, that is iff the root is null |
| KdTrees.KdTree.Size | KDTrees/src/KdTree.java:41-43 | size is the number of distinct stored points |
| KdTrees.KdTree.Insert | KDTrees/src/KdTree.java:46-49 | a null point changes nothing; otherwise the linked tree becomes the functional insertion of the point and the stored points gain exactly it |
| KdTrees.KdTree.InsertAt | KDTrees/src/KdTree.java:80-102 | the recursive insertion returns the subtree's root, whose model is the functional insertion, and grows `size` by the nodes added |
| KdTrees.KdTree.InsertLb | KDTrees/src/KdTree.java:95-96 | descending into `lb` replaces that child by its insertion |
| KdTrees.KdTree.InsertRt | KDTrees/src/KdTree.java:97-98 | descending into `rt` replaces that child by its insertion |
| KdTrees.KdTree.Contains | KDTrees/src/KdTree.java:105-121 | a null point fails with IllegalArgument; otherwise the search along the insertion path answers whether the point is stored |
| KdTrees.KdTree.Range | KDTrees/src/KdTree.java:158-191 | the work-list loop returns each point of the corrected `Found` exactly once; for points of the unit square these are exactly the stored points inside the rectangle |
| KdTrees.KdTree.Nearest | KDTrees/src/KdTree.java:206-243 | the linked search returns the functional `Nearest`; for points of the unit square it is absent iff the tree is empty, else a stored point of minimal distance |
| PointSets.InsertSortedMembers | KDTrees/src/PointSET.java:25-29 | inserting into the ordered set adds exactly the point |
| PointSets.InsertSortedSorted | KDTrees/src/PointSET.java:25-29 | insertion keeps the points strictly ordered by y then x |
| PointSets.InsertSortedLength | KDTrees/src/PointSET.java:25-29 | inserting an absent point lengthens the set by one |
| PointSets.SortedCount | KDTrees/src/PointSET.java:20-22 | a strictly ordered list holds as many points as its length |
| PointSets.FilterMembers | KDTrees/src/PointSET.java:44-54 | the filtered list holds exactly the members inside the rectangle |
| PointSets.FilterSorted | KDTrees/src/PointSET.java:44-54 | the filtered list keeps the set's iteration order |
| PointSets.ScanIsMinimum | KDTrees/src/PointSET.java:61-75 | the scan returns the start point or a member, no farther than the start or any member |
| PointSets.ScanIsFirst | KDTrees/src/PointSET.java:67-73 | with the strict `<`, every point before the result in set order is strictly farther |
| PointSets.ScanBeats | KDTrees/src/PointSET.java:67-73 | the scan keeps the start point unless it finds a strictly closer one |
| PointSets.NearestOfIsFirstNearest | KDTrees/src/PointSET.java:57-76 | nearest is absent iff the set is empty; otherwise it is a member of minimal distance, and the first such in set order |
| PointSets.PointSet.constructor | KDTrees/src/PointSET.java:8-12 | a new set is empty |
| PointSets.PointSet.IsEmpty | KDTrees/src/PointSET.java:15-17 | empty iff there are no members |
| PointSets.PointSet.Size | KDTrees/src/PointSET.java:20-22 | size is the number of members, and zero iff the set is empty |
| PointSets.PointSet.Insert | KDTrees/src/PointSET.java:25-29 | an absent point is added in order and raises the size by one; a present point changes nothing |
| PointSets.PointSet.Contains | KDTrees/src/PointSET.java:32-34 | contains holds iff the point is a member |
| PointSets.PointSet.Range | KDTrees/src/PointSET.java:44-54 | the loop returns exactly the members inside the rectangle, in set order |
| PointSets.PointSet.Nearest | KDTrees/src/PointSET.java:57-76 | the loop returns null on the empty set, else the first member in set order of minimal distance |
| Agreement.RangeAgrees | KDTrees/src/KdTree.java:158-191 | on the same points of the unit square, kd-tree range and brute-force range report the same points |
| Agreement.NearestAgrees | KDTrees/src/KdTree.java:206-243 | on the same points, both nearest searches are absent together, return points at the same distance, and return the same point when the distances are distinct |
| Deques.Node.constructor | Dequeue/src/Deque.java:22-26 | a new node holds its item and no links |
| Deques.Deque.constructor | Dequeue/src/Deque.java:29-33 | a new deque is empty |
| Deques.Deque.IsEmpty | Dequeue/src/Deque.java:36-38 | empty iff there are no items, iff `N == 0`, iff `last` is null |
| Deques.Deque.Size | Dequeue/src/Deque.java:41-43 | size is the number of items |
| Deques.Deque.AddFirst | Dequeue/src/Deque.java:46-60 | null fails with IllegalArgument and changes nothing; otherwise the item is prepended and `N` grows by one, keeping the links consistent |
| Deques.Deque.AddLast | Dequeue/src/Deque.java:63-77 | null fails with IllegalArgument and changes nothing; otherwise the item is appended and `N` grows by one |
| Deques.Deque.RemoveFirst | Dequeue/src/Deque.java:80-91 | empty fails with NoSuchElement; otherwise it returns and drops the head and `N` shrinks by one |
| Deques.Deque.RemoveLast | Dequeue/src/Deque.java:94-105 | empty fails with NoSuchElement; otherwise it returns and drops the last item and `N` shrinks by one |
| Deques.Deque.Iterator | Dequeue/src/Deque.java:108-113 | a new iterator starts at the first item |
| Deques.DequeIterator.constructor | Dequeue/src/Deque.java:112-113 | the cursor starts at `first` |
| Deques.DequeIterator.HasNext | Dequeue/src/Deque.java:115-117 | holds iff items remain |
| Deques.DequeIterator.Remove | Dequeue/src/Deque.java:119-121 | always fails with UnsupportedOperation |
| Deques.DequeIterator.Next | Dequeue/src/Deque.java:123-128 | returns the next item in order and advances, or fails with NoSuchElement at the end |
| Deques.RemoveFirstScenario | Dequeue/src/Deque.java:134-163 | three `addFirst` calls of C, B, A then three `removeFirst` calls give A, B, C |
| Deques.RemoveLastScenario | Dequeue/src/Deque.java:166-186 | three `addLast` calls of A, B, C then three `removeLast` calls give C, B, A |
| RandomizedQueues.CapacityBounds | Dequeue/src/RandomizedQueue.java:44-54 | after k enqueues from one slot, the array is larger than k and at most 2k |
| RandomizedQueues.RandomizedQueue.constructor | Dequeue/src/RandomizedQueue.java:27-32 | a new queue is empty with one slot |
| RandomizedQueues.RandomizedQueue.IsEmpty | Dequeue/src/RandomizedQueue.java:34-37 | empty iff there are no items |
| RandomizedQueues.RandomizedQueue.Size | Dequeue/src/RandomizedQueue.java:39-42 | size is the number of items |
| RandomizedQueues.RandomizedQueue.Enqueue | Dequeue/src/RandomizedQueue.java:44-55 | null fails with IllegalArgument and changes nothing; otherwise the item is appended, and the array doubles exactly when it fills |
| RandomizedQueues.RandomizedQueue.Dequeue | Dequeue/src/RandomizedQueue.java:57-74 | empty fails with NoSuchElement; otherwise it returns the chosen item, moves the last item into its slot and removes exactly one copy of it; the array halves exactly when a quarter full |
| RandomizedQueues.RandomizedQueue.Resize | Dequeue/src/RandomizedQueue.java:76-82 | a fresh array of the new length holds the same items in the same slots |
| RandomizedQueues.RandomizedQueue.Sample | Dequeue/src/RandomizedQueue.java:85-92 | empty fails with NoSuchElement; otherwise it returns the chosen item without removing it |
| RandomizedQueues.MovedLast | Dequeue/src/RandomizedQueue.java:63-67 | moving the last item into the removed slot and dropping the tail removes exactly one copy of the removed item |
| RandomizedQueues.TenEnqueuesScenario | Dequeue/src/RandomizedQueue.java:130-161 | ten enqueues give size 10, `tail` 9 and 16 slots; dequeuing all gives size 0 and `tail` 0 |
| Boards.TwinPair | 8Puzzle/src/Board.java:117-135 | the twin exchanges two distinct cells among (0,0), (0,1), (1,0), avoiding a blank at (0,0) or (0,1); on a board with one blank, as the constructor's callers supply, neither cell is the blank |
| Boards.MovesCount | 8Puzzle/src/Board.java:158-169 | the blank has two to four distinct in-range orthogonal neighbours |
| Boards.HammingBound | 8Puzzle/src/Board.java:68-76 | hamming lies between 0 and n*n-1 |
| Boards.DivCell | 8Puzzle/src/Board.java:84-97 | value i*n+j+1 sits, by manhattan's integer division, at row i and column j |
| Boards.GoalCellCost | 8Puzzle/src/Board.java:53-97 | a cell holding its goal value costs nothing under either measure |
| Boards.GoalGridSum | 8Puzzle/src/Board.java:68-114 | the goal board has hamming and manhattan 0 |
| Boards.MisplacedCostsMove | 8Puzzle/src/Board.java:68-97 | a misplaced value is at least one move from home |
| Boards.HammingAtMostManhattan | 8Puzzle/src/Board.java:68-97 | hamming never exceeds manhattan |
| Boards.BlankFound | 8Puzzle/src/Board.java:39-51 | the blank the constructor records holds 0 |
| Boards.CopyBoard | 8Puzzle/src/Board.java:190-196 | the copy is a fresh grid with the same cells |
| Boards.Exch | 8Puzzle/src/Board.java:198-202 | exactly the two cells are exchanged |
| Boards.Board.constructor | 8Puzzle/src/Board.java:39-51 | the board keeps the grid and records the position of its blank |
| Boards.Board.Dimension | 8Puzzle/src/Board.java:59-61 | the dimension is the grid's side |
| Boards.Board.ComputeHamming | 8Puzzle/src/Board.java:68-76 | the loop counts the non-blank cells that differ from their goal value |
| Boards.Board.ComputeManhattan | 8Puzzle/src/Board.java:84-97 | the loop sums the row and column distances of non-blank values from their goal cells |
| Boards.Board.IsGoal | 8Puzzle/src/Board.java:100-114 | holds iff every cell holds its goal value, and then hamming and manhattan are 0 |
| Boards.Board.Twin | 8Puzzle/src/Board.java:117-135 | a board of dimension below 2 fails with IndexOutOfBounds, as the source's access of cell (0,1) or (1,0) throws; otherwise a fresh board equal to this one with exactly the twin pair exchanged; this board is unchanged |
| Boards.Board.Equals | 8Puzzle/src/Board.java:138-155 | holds iff the other board is non-null, has the same dimension and has equal cells |
| Boards.Board.Neighbors | 8Puzzle/src/Board.java:158-169 | one fresh board per in-range neighbour of the blank, in the order up, right, down, left, each with the blank exchanged with that neighbour |
| Boards.Board.EnqueueNeighbor | 8Puzzle/src/Board.java:171-188 | appends one fresh board with the blank moved in the given direction |
| Percolations.IndexRange | Percolation/src/Percolation.java:44-47 | a valid site's index lies in 0..n*n-1; the top row is below n and the bottom row from n*n-n |
| Percolations.IndexInjective | Percolation/src/Percolation.java:44-47 | distinct valid sites have distinct indices |
| Percolations.IndexOnto | Percolation/src/Percolation.java:44-47 | every index in 0..n*n-1 is some valid site's index |
| UnionFinds.UnionFind.constructor | Percolation/src/Percolation.java:23-24 | a fresh union-find connects each site only to itself |
| UnionFinds.UnionFind.Union | Percolation/src/Percolation.java:53-63 | exactly merges the components of `p` and `q` (`Merged`): two sites are connected afterwards iff they were, or each was with `p` or `q`; an alone site other than `p`, `q` stays alone |
| UnionFinds.MergedMeaning | Percolation/src/Percolation.java:53-63 | a merge connects the merged sites, keeps every connection, and adds connections only inside the merged component |
| UnionFinds.ThroughTrans | Percolation/src/Percolation.java:78-85 | growth only through one site's component composes over successive unions |
| UnionFinds.MergedTwice | Percolation/src/Percolation.java:58-61 | merging p with q and then q with r merges all three components at once, as `connect` does in `grid` |
| Percolations.Percolation.constructor | Percolation/src/Percolation.java:19-29 | a fresh grid has no open site and does not percolate; top and bottom are n*n and n*n+1 |
| Percolations.Percolation.InitializeSites | Percolation/src/Percolation.java:31-37 | the top row joins the virtual top and the bottom row the virtual bottom, and the grid does not percolate |
| Percolations.Percolation.JoinTopRow | Percolation/src/Percolation.java:33-34 | every top-row site is connected to the virtual top and nothing else changes |
| Percolations.Percolation.JoinBottomRow | Percolation/src/Percolation.java:35-36 | every bottom-row site is connected to the virtual bottom in the backwash structure only |
| Percolations.Percolation.IsValidSite | Percolation/src/Percolation.java:39-42 | valid iff 1 <= row <= n and 1 <= col <= n, and then the index is a grid site |
| Percolations.Percolation.IsOpen | Percolation/src/Percolation.java:88-92 | an invalid site fails with IllegalArgument; otherwise holds iff the site was opened |
| Percolations.Percolation.IsFull | Percolation/src/Percolation.java:94-98 | an invalid site fails with IllegalArgument; otherwise holds iff open and connected to the top, so full implies open |
| Percolations.Percolation.NumberOfOpenSites | Percolation/src/Percolation.java:100-102 | the count is the number of open sites |
| Percolations.Percolation.Percolates | Percolation/src/Percolation.java:104-106 | holds iff the virtual top and the virtual bottom share one component in `grid`; a new grid does not percolate (Percolations.Create), and a 1-by-1 grid percolates once its site is open (Percolations.Percolation.Open) |
| Percolations.ConnectEffect | Percolation/src/Percolation.java:53-63 | one `connect` grows both structures only through the site's component, joins it in `grid` with a valid open neighbour, and adds to its component only sites that were with it, with that neighbour or (in `grid`) with the virtual bottom |
| Percolations.OpenStepsUpTo | Percolation/src/Percolation.java:70-86 | after the four `connect` calls of `open`, the site is joined in `grid` to each valid open neighbour, both structures grew only through its component, and that component gained only sites that were with it, with a valid open neighbour, or (in `grid`) with the virtual bottom |
| Percolations.Percolation.Connect | Percolation/src/Percolation.java:53-63 | exactly `Connects`: a valid, open neighbour not yet connected in `grid` is merged with the site in both structures, and in `grid` also with the virtual bottom iff the merged component then reaches the virtual bottom in `bottomSiteGrid` and the virtual top in `grid`; otherwise nothing changes |
| Percolations.Percolation.UnionOpen | Percolation/src/Percolation.java:58-59 | exactly merges the two open sites' components in both structures, keeping the invariant |
| Percolations.Percolation.UnionBottom | Percolation/src/Percolation.java:60-61 | exactly merges an open site's component with the virtual bottom in `grid`, keeping the invariant and leaving `bottomSiteGrid` alone |
| Percolations.Percolation.Open | Percolation/src/Percolation.java:70-86 | an invalid site fails and changes nothing; opening an open site changes nothing; opening a closed site adds it, raises the count by one, runs the n == 1 union and then the four `connect` steps exactly (`OpenSteps`), with the effect `Opened`: joined in `grid` to each valid open neighbour, growth only through its component, which gains only sites with it, with an open neighbour or with the virtual bottom; with n == 1 the grid then percolates |
| Percolations.Percolation.ConnectNeighbours | Percolation/src/Percolation.java:78-85 | the loop calls `connect` for the four neighbours in the order above, right, below, left, each step exactly `Connects` |
| Percolations.Create | Percolation/src/Percolation.java:19-21 | n <= 0 fails with IllegalArgument; otherwise a fresh, empty, non-percolating grid |
| LockstepModel.InitOneAsWritten | WordNet/src/DeluxBFS.java:78-86 | marks the vertex at distance 0 without an `edgeTo`; an already marked vertex is a meeting at distance 0 |
| LockstepModel.InitOne | WordNet/src/DeluxBFS.java:78-86 | as above, with the vertex's own side recorded as its `edgeTo` |
| LockstepModel.Expand | WordNet/src/DeluxBFS.java:119-135 | visiting the neighbours keeps distances and sides of marked vertices, marks one vertex per vertex appended to the queue, and keeps the queue's prefix |
| LockstepModel.ExpandLevel | WordNet/src/DeluxBFS.java:140-156 | expanding a level only marks vertices, one per vertex of the next level |
| LockstepModel.MarkList | WordNet/src/DeluxBFS.java:137-161 | the queue keeps its length only when the level marks some vertex, so the search progresses |
| LockstepModel.MeetSound | WordNet/src/DeluxBFS.java:122-125 | reaching a vertex marked by the other side is a meeting at `distTo[adj] + distTo[curr] + 1` |
| LockstepModel.DiscoverSound | WordNet/src/DeluxBFS.java:128-133 | marking a vertex at `distTo[curr] + 1` keeps every marked vertex joined to its side by a walk of its distance |
| LockstepModel.ExpandSound | WordNet/src/DeluxBFS.java:119-135 | one vertex's expansion keeps the search sound and its queue on its side |
| LockstepModel.ExpandDiscovers | WordNet/src/DeluxBFS.java:128-133 | every new vertex is a neighbour, marked once, on the current side, at the discoverer's distance plus one, and enqueued |
| LockstepModel.ExpandMeeting | WordNet/src/DeluxBFS.java:122-125 | a meeting names a neighbour marked by the other side, at the summed distance; without one the ancestor is unchanged |
| LockstepModel.ExpandLevelSound | WordNet/src/DeluxBFS.java:137-161 | one level's expansion keeps the search sound and all queues on their sides |
| LockstepModel.InitPairSound | WordNet/src/DeluxBFS.java:64-86 | seeding v and w is sound; v == w is a meeting at v at distance 0 with only v marked, otherwise no ancestor yet |
| LockstepModel.InitStepSound | WordNet/src/DeluxBFS.java:102-117 | seeding one list vertex keeps the search sound |
| LockstepModel.InitListKeys | WordNet/src/DeluxBFS.java:102-117 | seeding a list marks exactly its vertices |
| LockstepModel.InitListAncestor | WordNet/src/DeluxBFS.java:107-110 | a list vertex already marked by the other side records an ancestor |
| LockstepModel.ListsStartSound | WordNet/src/DeluxBFS.java:88-117 | seeding both lists is sound; lists that share a vertex meet at a shared vertex at distance 0 with only the listed vertices marked |
| LockstepModel.MeetsZero | WordNet/src/DeluxBFS.java:102-114 | a meeting at distance 0 is a vertex of both sides |
| LockstepModel.CycleCounterexample | WordNet/src/DeluxBFS.java:78-125 | on edges 0->1->0 with v=0, w=2, the code as written reports ancestor 0 at distance 2, which is no ancestral path |
| LockstepModel.CycleCorrected | WordNet/src/DeluxBFS.java:78-125 | with the source's side recorded, the same search reports no ancestor |
| LockstepModel.ListCycleCounterexample | WordNet/src/DeluxBFS.java:102-146 | on edges 0->1->0 with sources [0] and goals [2], the list search as written reports ancestor 0 at distance 2, which is no ancestral path |
| LockstepModel.ListCycleCorrected | WordNet/src/DeluxBFS.java:102-146 | with each list's side recorded, the same list search reports no ancestor |
| LockstepModel.DuplicateSourceCounterexample | WordNet/src/DeluxBFS.java:102-117 | sources [0,0] and goals [1] in an edgeless graph: as written the duplicate is a meeting at 0, which is no ancestral path; corrected there is none |
| LockstepBfs.DeluxBfs.Pair | WordNet/src/DeluxBFS.java:38-76 | with the corrected start, any reported ancestor joins v and w by walks summing to the reported distance; ancestor and distance are -1 together; v == w gives v at 0 |
| LockstepBfs.DeluxBfs.Lists | WordNet/src/DeluxBFS.java:44-100 | with the corrected start, any reported ancestor joins the two lists by walks summing to the distance; lists sharing a vertex give a shared vertex at 0 and no expansion |
| LockstepBfs.DeluxBfs.GetAncestor | WordNet/src/DeluxBFS.java:55-57 | the ancestor is -1 iff the distance is -1 |
| LockstepBfs.DeluxBfs.GetAncestorDistance | WordNet/src/DeluxBFS.java:59-61 | with the two fields paired, as both constructors ensure, the distance is -1 iff no ancestor was found |
| LockstepBfs.DeluxBfs.BfsPair | WordNet/src/DeluxBFS.java:64-76 | with the corrected start, the lockstep loop terminates and keeps every marked vertex joined to its side; its result is as for the pair constructor |
| LockstepBfs.DeluxBfs.AdvanceSingle | WordNet/src/DeluxBFS.java:72-75 | one side's step keeps the search sound and drops the dequeued vertex |
| LockstepBfs.DeluxBfs.InitQueue | WordNet/src/DeluxBFS.java:78-86 | the state becomes `InitOne` of the vertex and the vertex is enqueued |
| LockstepBfs.DeluxBfs.MarkSingle | WordNet/src/DeluxBFS.java:119-135 | the state and queue become the functional `MarkSingle` |
| LockstepBfs.DeluxBfs.VisitAdjacent | WordNet/src/DeluxBFS.java:121-134 | the loop over the adjacency list computes the functional `Expand`, stopping at the first meeting |
| LockstepBfs.DeluxBfs.BfsLists | WordNet/src/DeluxBFS.java:88-100 | with the corrected start, the lockstep loop over levels terminates and its result is as for the list constructor |
| LockstepBfs.DeluxBfs.StartLists | WordNet/src/DeluxBFS.java:91-95 | both lists are seeded soundly and enqueued as one level each |
| LockstepBfs.DeluxBfs.AdvanceList | WordNet/src/DeluxBFS.java:96-99 | one level's step keeps the search sound and either marks a vertex or shortens the queue |
| LockstepBfs.DeluxBfs.InitQueueList | WordNet/src/DeluxBFS.java:102-117 | the state becomes `InitList` of the list and the list is enqueued as one level |
| LockstepBfs.DeluxBfs.MarkList | WordNet/src/DeluxBFS.java:137-161 | the state and queue become the functional `MarkList` |
| Saps.Sap.constructor | WordNet/src/SAP.java:26-29 | keeps the digraph |
| Saps.Sap.ValidateVertex | WordNet/src/SAP.java:31-36 | passes iff 0 <= v < V, else fails with IllegalArgument |
| Saps.Sap.ValidateVertices | WordNet/src/SAP.java:38-56 | a null list fails; otherwise passes iff every vertex is valid, failures being IllegalArgument |
| Saps.Sap.Length | WordNet/src/SAP.java:59-65 | with the corrected start, fails iff a vertex is invalid; a length other than -1 is the length of an ancestral path; v == w gives 0 |
| Saps.Sap.Ancestor | WordNet/src/SAP.java:69-75 | with the corrected start, fails iff a vertex is invalid; an ancestor other than -1 is a common ancestor; v == w gives v |
| Saps.Sap.LengthOfLists | WordNet/src/SAP.java:78-84 | with the corrected start, fails iff a list is null or holds an invalid vertex; a length other than -1 is the length of an ancestral path between the lists; a shared vertex gives 0 |
| Saps.Sap.AncestorOfLists | WordNet/src/SAP.java:87-93 | with the corrected start, as above for the ancestor; a shared vertex gives a vertex of both lists |
| Saps.Create | WordNet/src/SAP.java:26-29 | a null digraph fails with IllegalArgument |

## Left out

- Drawing, `toString`, every `main` and all console and file input. They
  are I/O.
- Floating point. Coordinates and distances are exact reals. There is no
  NaN, no -0.0 and no rounding.
- `(int) Math.pow(n, 2)` in the constructor
  (Percolation/src/Percolation.java:22) is written `n * n`. The double
  power is exact for every n whose square fits an `int`. The two nearest
  searches compare `distanceSquaredTo`, which is an exact square here.
- Java `int` overflow. Counts, indices and the `i*n+j+1` goal values are
  unbounded integers, which agree with the code for every board and grid
  that fits in memory.
- The weighting and path compression of `WeightedQuickUnionUF`. They
  change speed, not connectivity.
- Randomness. `StdRandom.uniform` in `dequeue` and `sample` is a
  caller-supplied index.
- The randomized queue's iterator (Dequeue/src/RandomizedQueue.java:95-122).
  It shuffles a copy with `StdRandom`, and its order is random.
- The self-test assertions at Dequeue/src/RandomizedQueue.java:137, 143,
  155 and 160. They expect a 20-slot array and a `tail` that drops below
  0. By the doubling rule ten enqueues give 16 slots, and `tail` stops
  at 0 (RandomizedQueues.TenEnqueuesScenario).
- The self-test call `open(0, 0)` at Percolation/src/Percolation.java:115.
  It is out of range and would throw.
- Percolation.java:31-37 unions both structures in one loop. The model
  joins the top row and the bottom row in two loops. The two structures
  share no state, so the result is the same.
- Deques.Deque.RemoveFirst and Deques.Deque.RemoveLast: the
  `item = null` clearing of the removed node is not modelled. Items have
  a type without null, and the removed node is unlinked and no longer
  reachable.
- Boards.Board.Neighbors: the algs4 `Queue` is a sequence of boards.
- Boards.Board.Equals: the `getClass` test is the type of the argument.
  A non-`Board` argument cannot be passed.
- KdTrees.KdTree.Range and KdTrees.KdTree.Nearest state "exactly the
  points in the rectangle" and "a nearest point" only for points of the
  unit square. Outside it, the root region [0,1]x[0,1] no longer contains
  the subtree, so pruning can drop points.
- KdTrees.KdTree.Insert, KdTrees.KdTree.InsertAt, KdTrees.KdTree.Range
  and KdTrees.KdTree.Nearest model the corrected tie side and child
  order; the code as written is in the findings below.
- Null arguments of `PointSET` and of `KdTree.insert`, `range` and
  `nearest` are not modelled beyond `KdTree.insert(null)` as a no-op and
  `KdTree.contains(null)`. `PointSET` takes plain points.
- The kd-tree nearest search visits the far side first
  (KDTrees/src/KdTree.java:210-216, 228-240). When the query's
  coordinate is below the node's, it searches `lb` first. But insert
  puts the larger coordinates in `lb` (KDTrees/src/KdTree.java:95-96).
  This order decides which point is returned among several at the same
  least distance. The update at KDTrees/src/KdTree.java:224 keeps the
  first one found, because its `<` is strict. KdTreeModel.Nearest
  follows that recursion and its order. Agreement.NearestAgrees
  promises the same point as the brute-force set only when no two
  stored points are equally far from the query. With ties it promises
  only an equally near point.
- LockstepBfs.DeluxBfs.Pair, LockstepBfs.DeluxBfs.Lists,
  LockstepBfs.DeluxBfs.BfsPair, LockstepBfs.DeluxBfs.BfsLists,
  LockstepBfs.DeluxBfs.InitQueue, LockstepBfs.DeluxBfs.InitQueueList,
  LockstepBfs.DeluxBfs.StartLists and the four Saps.Sap queries run the
  corrected `initQueue` of the DeluxBFS findings below. The code as written is LockstepModel.InitOneAsWritten
  and LockstepModel.InitListAsWritten. Their results are therefore those
  of the corrected code, not of the source as written.
- Saps.Sap.ValidateVertices, Saps.Sap.LengthOfLists and
  Saps.Sap.AncestorOfLists take lists of plain vertices (`seq<int>`). A
  list element that is a null `Integer` therefore cannot be passed.
  SAP.java:51 would throw `NullPointerException` when it unboxes one.
- Percolations.Percolation.Open does not promise that each open
  neighbour is joined to the new site in `bottomSiteGrid`. `connect`
  makes both unions only when the two sites are not yet connected in
  `grid`. Two top-row sites are always connected there, through the
  virtual top, so opening the second one does not join them in
  `bottomSiteGrid`. The contract states every `connect` step exactly
  (`OpenSteps`), and the join in `grid` to every open neighbour.
- LockstepBfs.DeluxBfs.Pair and LockstepBfs.DeluxBfs.Lists: -1 is not
  proved to mean that no ancestral path exists. Only the soundness of a
  reported meeting is proved.
- Saps.Sap.Length, Saps.Sap.Ancestor, Saps.Sap.LengthOfLists and
  Saps.Sap.AncestorOfLists do not state that the path is shortest, which
  SAP.java:58 promises. The lockstep loop keeps running after a meeting
  and can overwrite `ancestor` with a later one, so the code does not
  keep that promise. Nor do they state that -1 means no ancestral path
  exists, which SAP.java:58, 68, 77 and 86 also promise: as for
  LockstepBfs.DeluxBfs.Pair and LockstepBfs.DeluxBfs.Lists, only a
  reported meeting is proved sound.
- The Sap and DeluxBfs members require every edge to end at a vertex
  (`IsDigraph`), as algs4 `Digraph` guarantees. `DeluxBfs` also requires
  valid start vertices, because algs4 `Digraph.adj` throws on others and
  `SAP` validates them first.
- The brute-force set's order is that of algs4 `Point2D.compareTo`:
  y first, then x (`Geometry.Less`). An x-then-y description of this
  order does not match the code, and the model follows the code.

## Findings

| source | as written | input that shows it | evidently intended | confidence | as-written member | corrected member |
|---|---|---|---|---|---|---|
| KDTrees/src/KdTree.java:173-174, 184-185 | when a node's line lies left of (below) the query, range queues `rt`, and when it lies right of (above), it queues `lb`; but `lb` holds the larger coordinates | insert (0.5,0.5) then (0.75,0.5); range over [0.6,0.9]x[0.4,0.6] misses (0.75,0.5) | queue the child on the query's side: `lb` when the line is below the query, `rt` when above | not executed | KdTreeModel.RangeAsWrittenMissesPoint | KdTreeModel.FoundIsRange |
| KDTrees/src/KdTree.java:59-61, 68-70 | `getSubRect` gives a point tying the parent's coordinate the upper half, while insert sends ties to `rt`, the lower side | insert (0.5,0.5), (0.5,0.4), (0.1,0.45), (0.1,0.3); nearest((0.1,0.3)) returns (0.1,0.45) | a tying point gets the lower half, the side insert sends it to | not executed | KdTreeModel.NearestTieCounterexample | KdTreeModel.NearestIsNearest |
| WordNet/src/DeluxBFS.java:78-86, 122-125 | `initQueue(int)` sets no `edgeTo` for the source, so reaching one's own source again counts as meeting the other side | edges 0->1, 1->0, vertex 2 isolated; v=0, w=2 reports ancestor 0 at distance 2 | record the source's own side as its `edgeTo` | not executed | LockstepModel.CycleCounterexample | LockstepModel.CycleCorrected |
| WordNet/src/DeluxBFS.java:102-117 | `initQueue(Iterable)` treats any already marked vertex as a meeting, including a duplicate within the same list | two vertices, no edges; sources [0,0], goals [1] reports ancestor 0 at distance 0 | count only vertices already marked by the other list | not executed | LockstepModel.DuplicateSourceCounterexample | LockstepBfs.DeluxBfs.Lists |
| WordNet/src/DeluxBFS.java:102-117, 143-146 | `initQueue(Iterable)` sets no `edgeTo` for the list's vertices, so markList's test at line 143 counts a walk back to one's own source list as meeting the other side | edges 0->1, 1->0, vertex 2 isolated; sources [0], goals [2] reports ancestor 0 at distance 2 | record each list's side as the `edgeTo` of its vertices | not executed | LockstepModel.ListCycleCounterexample | LockstepModel.ListCycleCorrected |
