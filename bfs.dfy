/** Breadth-first search (src/algorithms/bfs.js): a FIFO queue, neighbours tried up, down,
    left, right, and one snapshot per cell taken off the queue. */
module BreadthFirst {
  import opened Grid
  import opened Frontier

  /** The (row, column) offsets `getNeighbors` tries: up, down, left, right. */
  const Directions: seq<(int, int)> := [(-1, 0), (1, 0), (0, -1), (0, 1)]

  /** One step snapshot: a copy of the visited set, a copy of the path to the cell being
      processed, that cell, the positions left in the queue, and the two terminal flags. */
  datatype Step = Step(visited: set<Cell>, path: seq<Cell>, current: Cell, queue: seq<Cell>,
                       isComplete: bool, noPath: bool)

  /** `[n]` when `n` is inside a `rows` by `cols` grid, else nothing. */
  function Keep(n: Cell, rows: int, cols: int): seq<Cell> {
    if IsValidCell(n.row, n.col, rows, cols) then [n] else []
  }

  /** The neighbours kept after trying the first `k` of the `Directions` from `c`. */
  function KeptAfter(c: Cell, k: nat, rows: int, cols: int): seq<Cell>
    requires k <= |Directions|
  {
    if k == 0 then [] else KeptAfter(c, k - 1, rows, cols) + Keep(Move(c, Directions[k - 1]), rows, cols)
  }

  /** What `getNeighbors` returns: the in-bounds cells among up, down, left and right of `c`, in that order. */
  function Neighbors(c: Cell, rows: int, cols: int): seq<Cell> {
    Keep(Cell(c.row - 1, c.col), rows, cols) + Keep(Cell(c.row + 1, c.col), rows, cols) +
    Keep(Cell(c.row, c.col - 1), rows, cols) + Keep(Cell(c.row, c.col + 1), rows, cols)
  }

  /** Trying all four directions keeps `Neighbors`. */
  lemma KeptAll(c: Cell, rows: int, cols: int)
    ensures KeptAfter(c, |Directions|, rows, cols) == Neighbors(c, rows, cols)
  {
    var up, down := Keep(Cell(c.row - 1, c.col), rows, cols), Keep(Cell(c.row + 1, c.col), rows, cols);
    var left, right := Keep(Cell(c.row, c.col - 1), rows, cols), Keep(Cell(c.row, c.col + 1), rows, cols);
    assert KeptAfter(c, 1, rows, cols) == up;
    assert KeptAfter(c, 2, rows, cols) == up + down;
    assert KeptAfter(c, 3, rows, cols) == up + down + left;
  }

  /** `getNeighbors` returns precisely the in-bounds cells orthogonally adjacent to `c`. */
  lemma NeighborsAdjacent(c: Cell, rows: int, cols: int)
    ensures forall n :: n in Neighbors(c, rows, cols) <==> Adjacent(c, n) && IsValidCell(n.row, n.col, rows, cols)
  {
  }

  /** `getNeighbors`: a loop over the four directions keeping the in-bounds moves. */
  method GetNeighbors(row: int, col: int, rows: int, cols: int) returns (neighbors: seq<Cell>)
    ensures neighbors == Neighbors(Cell(row, col), rows, cols)
    ensures forall n :: n in neighbors <==> Adjacent(Cell(row, col), n) && IsValidCell(n.row, n.col, rows, cols)
    ensures forall i :: 0 <= i < |neighbors| ==> IsValidCell(neighbors[i].row, neighbors[i].col, rows, cols)
  {
    ghost var c := Cell(row, col);
    neighbors := [];
    for k := 0 to |Directions|
      invariant neighbors == KeptAfter(c, k, rows, cols)
    {
      var newRow := row + Directions[k].0;
      var newCol := col + Directions[k].1;
      if IsValidCell(newRow, newCol, rows, cols) {
        neighbors := neighbors + [Cell(newRow, newCol)];
      }
    }
    KeptAll(c, rows, cols);
    NeighborsAdjacent(Cell(row, col), rows, cols);
  }

  /** The inner `for (const neighbor of neighbors)` loop: each neighbour not yet visited and
      holding 0 is marked visited and appended to the queue with the path extended by it. */
  method EnqueueNeighbors(maze: Maze, current: Entry, neighbors: seq<Cell>, queue: seq<Entry>, visited: set<Cell>)
    returns (queue': seq<Entry>, visited': set<Cell>)
    requires Rectangular(maze)
    requires forall i :: 0 <= i < |neighbors| ==> InBounds(maze, neighbors[i])
    ensures queue' == queue + Entries(current, Discover(maze, visited, neighbors))
    ensures visited' == visited + Elems(Discover(maze, visited, neighbors))
  {
    ghost var found: seq<Cell> := [];
    queue', visited' := queue, visited;
    for k := 0 to |neighbors|
      invariant found + Discover(maze, visited', neighbors[k..]) == Discover(maze, visited, neighbors)
      invariant visited' == visited + Elems(found)
      invariant queue' == queue + Entries(current, found)
    {
      var neighbor := neighbors[k];
      ScanStep(maze, visited, neighbors, k, found, visited');
      if neighbor !in visited' && maze[neighbor.row][neighbor.col] == 0 {
        EntriesSnoc(current, found, neighbor);
        visited' := visited' + {neighbor};
        queue' := queue' + [Entry(neighbor, current.path + [neighbor], current.distance + 1)];
        found := found + [neighbor];
      }
    }
  }

  /** The entries before `k` are as far from the start as the front one, the rest one farther. */
  ghost predicate LevelsAt(queue: seq<Entry>, k: int) {
    forall i :: 0 <= i < |queue| ==> queue[i].distance == queue[0].distance + (if i < k then 0 else 1)
  }

  /** The queue holds one layer of distance and then possibly the next: distances never
      decrease from front to back and grow by at most one. */
  ghost predicate Layered(queue: seq<Entry>) {
    exists k :: LevelsAt(queue, k)
  }

  /** Taking the front entry off a layered queue and appending entries one farther keeps it
      layered, with every entry between the front's distance and one more. */
  lemma LayeredAfterScan(queue: seq<Entry>, found: seq<Cell>)
    requires Layered(queue) && |queue| > 0
    ensures var queue', d := queue[1..] + Entries(queue[0], found), queue[0].distance;
      Layered(queue') && forall i :: 0 <= i < |queue'| ==> d <= queue'[i].distance <= d + 1
  {
    var queue' := queue[1..] + Entries(queue[0], found);
    var d := queue[0].distance;
    var k :| LevelsAt(queue, k);
    assert forall i :: 0 <= i < |queue'| ==> queue'[i] == if i < |queue| - 1 then queue[i + 1] else Entries(queue[0], found)[i - |queue| + 1];
    if |queue| >= 2 && k >= 2 {
      var k' := if k <= |queue| then k - 1 else |queue| - 1;
      assert LevelsAt(queue', k');
    } else {
      assert LevelsAt(queue', |queue'|);
    }
  }

  /** No closed cell was reached by a longer path than the front of the queue. */
  ghost predicate ClosedBelow(queue: seq<Entry>, closed: set<Cell>, pathTo: map<Cell, seq<Cell>>) {
    |queue| > 0 ==> forall c :: c in closed ==> c in pathTo && |pathTo[c]| <= queue[0].distance + 1
  }

  /** Each open neighbour of a closed cell was reached by a path at most one cell longer. */
  ghost predicate NearerNeighbours(maze: Maze, closed: set<Cell>, pathTo: map<Cell, seq<Cell>>)
    requires Rectangular(maze)
  {
    forall u, w :: u in closed && Adjacent(u, w) && IsOpen(maze, w) ==>
      u in pathTo && w in pathTo && |pathTo[w]| <= |pathTo[u]| + 1
  }

  /** The breadth-first invariant on top of the shared one: the queue is layered, no closed cell
      is farther than the front of the queue, and each open neighbour of a closed cell was
      reached by a path at most one cell longer. */
  ghost predicate BfsState(maze: Maze, start: Cell, queue: seq<Entry>, visited: set<Cell>,
                           closed: set<Cell>, pathTo: map<Cell, seq<Cell>>)
    requires Rectangular(maze)
  {
    && SearchState(maze, start, queue, visited, closed, pathTo)
    && Layered(queue)
    && ClosedBelow(queue, closed, pathTo)
    && NearerNeighbours(maze, closed, pathTo)
  }

  /** After the front entry is taken off, no closed cell, the newly closed one included, is
      farther than the new front of the queue. */
  lemma ClosedBelowAfterScan(queue: seq<Entry>, visited: set<Cell>, closed: set<Cell>,
                             pathTo: map<Cell, seq<Cell>>, found: seq<Cell>)
    requires Layered(queue) && |queue| > 0
    requires closed <= visited && pathTo.Keys == visited
    requires ClosedBelow(queue, closed, pathTo)
    requires queue[0].position in visited && queue[0].path == pathTo[queue[0].position]
    requires queue[0].distance == |queue[0].path| - 1
    requires forall i :: 0 <= i < |found| ==> found[i] !in visited
    ensures ClosedBelow(queue[1..] + Entries(queue[0], found), closed + {queue[0].position},
                        ExtendPaths(pathTo, queue[0].path, found))
  {
    var cur := queue[0];
    var queue' := queue[1..] + Entries(cur, found);
    var pathTo' := ExtendPaths(pathTo, cur.path, found);
    LayeredAfterScan(queue, found);
    forall c | c in closed + {cur.position} ensures c in pathTo' && pathTo'[c] == pathTo[c] {
      assert c !in found;
    }
    if |queue'| > 0 {
      assert cur.distance <= queue'[0].distance;
    }
  }

  /** After the front cell is closed, each open neighbour of a closed cell has a recorded path at
      most one cell longer than that cell's. For the newly closed cell this holds because its
      neighbours were either just discovered, or closed earlier, or still on the layered queue. */
  lemma NearerAfterScan(maze: Maze, queue: seq<Entry>, visited: set<Cell>, closed: set<Cell>,
                        pathTo: map<Cell, seq<Cell>>, cands: seq<Cell>)
    requires Rectangular(maze)
    requires Layered(queue) && |queue| > 0
    requires FrontierAgrees(queue, visited, closed, pathTo)
    requires ClosedBelow(queue, closed, pathTo) && NearerNeighbours(maze, closed, pathTo)
    requires forall w :: Adjacent(queue[0].position, w) && InBounds(maze, w) ==> w in cands
    ensures NearerNeighbours(maze, closed + {queue[0].position},
                             ExtendPaths(pathTo, queue[0].path, Discover(maze, visited, cands)))
  {
    var cur := queue[0];
    var found := Discover(maze, visited, cands);
    DiscoverFacts(maze, visited, cands);
    var pathTo' := ExtendPaths(pathTo, cur.path, found);
    assert Positions(queue)[0] == cur.position;
    assert cur.position in visited;
    forall u, w | u in closed + {cur.position} && Adjacent(u, w) && IsOpen(maze, w)
      ensures u in pathTo' && w in pathTo' && |pathTo'[w]| <= |pathTo'[u]| + 1
    {
      assert u in visited && u !in found;
      assert pathTo'[u] == pathTo[u];
      if w in found {
        assert u == cur.position;
        assert pathTo'[w] == cur.path + [w];
      } else {
        assert w in visited;
        assert pathTo'[w] == pathTo[w];
        if u == cur.position && w !in closed {
          assert w in Elems(Positions(queue));
          var i :| 0 <= i < |queue| && Positions(queue)[i] == w;
          assert queue[i].distance <= cur.distance + 1;
        }
      }
    }
  }

  /** Taking the front entry off and scanning its neighbours keeps the breadth-first invariant. */
  lemma BfsExpandPreserves(maze: Maze, start: Cell, queue: seq<Entry>, visited: set<Cell>,
                           closed: set<Cell>, pathTo: map<Cell, seq<Cell>>)
    requires Rectangular(maze)
    requires BfsState(maze, start, queue, visited, closed, pathTo) && |queue| > 0
    ensures var cur := queue[0];
            var found := Discover(maze, visited, Neighbors(cur.position, |maze|, |maze[0]|));
      && cur.position !in closed
      && BfsState(maze, start, queue[1..] + Entries(cur, found), visited + Elems(found),
                  closed + {cur.position}, ExtendPaths(pathTo, cur.path, found))
  {
    var cur := queue[0];
    var cands := Neighbors(cur.position, |maze|, |maze[0]|);
    var found := Discover(maze, visited, cands);
    QueueExpand(maze, start, queue, visited, closed, pathTo);
    NeighborsAdjacent(cur.position, |maze|, |maze[0]|);
    DiscoverFacts(maze, visited, cands);
    LayeredAfterScan(queue, found);
    assert Positions(queue)[0] == cur.position;
    ClosedBelowAfterScan(queue, visited, closed, pathTo, found);
    NearerAfterScan(maze, queue, visited, closed, pathTo, cands);
  }

  /** Taking the front entry and scanning its neighbours keeps the shared search invariant. */
  lemma QueueExpand(maze: Maze, start: Cell, queue: seq<Entry>, visited: set<Cell>,
                    closed: set<Cell>, pathTo: map<Cell, seq<Cell>>)
    requires Rectangular(maze)
    requires SearchState(maze, start, queue, visited, closed, pathTo) && |queue| > 0
    ensures var cur := queue[0];
            var found := Discover(maze, visited, Neighbors(cur.position, |maze|, |maze[0]|));
      && cur.position !in closed
      && SearchState(maze, start, queue[1..] + Entries(cur, found), visited + Elems(found),
                     closed + {cur.position}, ExtendPaths(pathTo, cur.path, found))
  {
    NeighborsAdjacent(queue[0].position, |maze|, |maze[0]|);
    assert Without(queue, 0) == queue[1..];
    ExpandPreserves(maze, start, queue, visited, closed, pathTo, 0, Neighbors(queue[0].position, |maze|, |maze[0]|));
  }

  /** Every walk from the start no longer than the front of the queue's path ends at a visited
      cell whose recorded path is no longer than the walk: no cell is reached by a shorter walk
      than the one breadth-first order recorded. */
  lemma {:induction false} ShortestWalk(maze: Maze, start: Cell, queue: seq<Entry>, visited: set<Cell>,
                                        closed: set<Cell>, pathTo: map<Cell, seq<Cell>>, p: seq<Cell>)
    requires Rectangular(maze)
    requires BfsState(maze, start, queue, visited, closed, pathTo) && |queue| > 0
    requires Walk(maze, start, p) && |p| <= queue[0].distance + 1
    ensures Last(p) in visited && |pathTo[Last(p)]| <= |p|
    decreases |p|
  {
    if |p| > 1 {
      var q := p[..|p| - 1];
      WalkPrefix(maze, start, p);
      ShortestWalk(maze, start, queue, visited, closed, pathTo, q);
    }
  }

  /** The validation at the top of `bfs`: both endpoints inside the grid and neither a wall. */
  predicate ValidEndpoints(maze: Maze, start: Cell, end: Cell)
    requires Rectangular(maze)
  {
    !IsWall(maze, start) && !IsWall(maze, end) && InBounds(maze, start) && InBounds(maze, end)
  }

  /** The cells the scan of snapshot `s`'s cell discovers, in the order they join the queue. */
  function Expansion(maze: Maze, s: Step): seq<Cell>
    requires Rectangular(maze)
  {
    Discover(maze, s.visited, Neighbors(s.current, |maze|, |maze[0]|))
  }

  /** Snapshot `t` is the one after `s`: the queue is first in, first out — `t`'s cell and queue
      are `s`'s queue followed by what the scan of `s`'s cell discovered — and the visited set
      grew by exactly those cells. */
  predicate Follows(maze: Maze, s: Step, t: Step)
    requires Rectangular(maze)
  {
    [t.current] + t.queue == s.queue + Expansion(maze, s) &&
    t.visited == s.visited + Elems(Expansion(maze, s))
  }

  /** What every snapshot shows: its path is a simple walk from the start through visited cells
      ending at its cell; every visited cell is the start or open; the queued cells are visited
      and distinct. */
  predicate SnapshotValid(maze: Maze, start: Cell, s: Step)
    requires Rectangular(maze)
  {
    && ValidPath(maze, start, s.path) && Last(s.path) == s.current && Within(s.path, s.visited)
    && (forall v :: v in s.visited ==> v == start || IsOpen(maze, v))
    && Within(s.queue, s.visited) && Distinct(s.queue)
  }

  /** The first snapshot is taken with only the start visited, its path `[start]` and the queue
      then empty. */
  predicate Starts(start: Cell, steps: seq<Step>) {
    |steps| > 0 && steps[0].visited == {start} && steps[0].path == [start] &&
    steps[0].current == start && steps[0].queue == [] && !steps[0].isComplete
  }

  predicate VisitedGrows(steps: seq<Step>) {
    forall i, j :: 0 <= i <= j < |steps| ==> steps[i].visited <= steps[j].visited
  }

  /** Snapshot `i + 1`, unless it is the completion one, follows snapshot `i`. */
  predicate FollowsAt(maze: Maze, steps: seq<Step>, i: int)
    requires Rectangular(maze) && 0 <= i < |steps| - 1
  {
    !steps[i + 1].isComplete ==> Follows(maze, steps[i], steps[i + 1])
  }

  /** Every snapshot but the completion one follows its predecessor. */
  predicate FirstInFirstOut(maze: Maze, steps: seq<Step>)
    requires Rectangular(maze)
  {
    forall i :: 0 <= i < |steps| - 1 ==> FollowsAt(maze, steps, i)
  }

  /** No cell is taken off the queue twice. */
  predicate DistinctCurrents(steps: seq<Step>) {
    forall i, j :: 0 <= i < j < |steps| && !steps[j].isComplete ==> steps[i].current != steps[j].current
  }

  /** Cells are taken off in the order of their distance from the start. */
  predicate Layers(steps: seq<Step>) {
    forall i, j :: 0 <= i <= j < |steps| ==> |steps[i].path| <= |steps[j].path|
  }

  /** The path of snapshot `s` is no longer than any walk from the start to its cell. */
  ghost predicate ShortestTo(maze: Maze, start: Cell, s: Step)
    requires Rectangular(maze)
  {
    forall p :: Walk(maze, start, p) && Last(p) == s.current ==> |s.path| <= |p|
  }

  /** Every snapshot's path is a shortest walk from the start to its cell. */
  ghost predicate Shortest(maze: Maze, start: Cell, steps: seq<Step>)
    requires Rectangular(maze)
  {
    forall i :: 0 <= i < |steps| ==> ShortestTo(maze, start, steps[i])
  }

  /** The completion snapshot comes last, repeats the one before it (whose cell is the end) with
      the queue emptied, and the end is the cell of no earlier snapshot. */
  predicate CompletesLast(end: Cell, steps: seq<Step>) {
    && (forall i :: 0 <= i < |steps| && steps[i].isComplete ==>
          i == |steps| - 1 && i > 0 && steps[i - 1].current == end &&
          steps[i] == steps[i - 1].(queue := [], isComplete := true))
    && (forall i :: 0 <= i < |steps| && steps[i].current == end ==> i >= |steps| - 2)
  }

  /** Only the last snapshot may carry `noPath`, and the last carries exactly one of the two
      flags; with `noPath` the queue is empty and the last scan discovered nothing. */
  predicate EndsOnce(maze: Maze, steps: seq<Step>)
    requires Rectangular(maze)
  {
    && |steps| > 0
    && (forall i :: 0 <= i < |steps| - 1 ==> !steps[i].noPath)
    && Last(steps).noPath != Last(steps).isComplete
    && (Last(steps).noPath ==> Last(steps).queue + Expansion(maze, Last(steps)) == [])
  }

  /** The search completes exactly when some walk leads from the start to the end. */
  ghost predicate Decides(maze: Maze, start: Cell, end: Cell, steps: seq<Step>)
    requires Rectangular(maze) && |steps| > 0
  {
    Last(steps).isComplete <==> exists p :: Walk(maze, start, p) && Last(p) == end
  }

  /** The trace of a search that passed validation. */
  ghost predicate BfsTrace(maze: Maze, start: Cell, end: Cell, steps: seq<Step>)
    requires Rectangular(maze)
  {
    && Starts(start, steps)
    && (forall i :: 0 <= i < |steps| ==> SnapshotValid(maze, start, steps[i]))
    && VisitedGrows(steps)
    && FirstInFirstOut(maze, steps)
    && DistinctCurrents(steps)
    && Layers(steps)
    && Shortest(maze, start, steps)
    && CompletesLast(end, steps)
    && EndsOnce(maze, steps)
    && Decides(maze, start, end, steps)
    && |steps| <= |Reachable(maze, start)| + 1
  }

  /** The snapshot `bfs` records after taking the front entry off `queue`. */
  function Snapshot(visited: set<Cell>, queue: seq<Entry>): (s: Step)
    requires queue != []
    ensures s.current == queue[0].position && s.path == queue[0].path && s.visited == visited
    ensures [s.current] + s.queue == Positions(queue) && !s.isComplete && !s.noPath
  {
    Step(visited, queue[0].path, queue[0].position, Positions(queue[1..]), false, false)
  }


  /** The rest of the queue of a search state, once its front entry is taken, lies within the
      visited cells and holds no cell twice. */
  lemma RestOfQueue(queue: seq<Entry>, visited: set<Cell>, closed: set<Cell>, pathTo: map<Cell, seq<Cell>>)
    requires FrontierAgrees(queue, visited, closed, pathTo) && queue != []
    ensures Within(Positions(queue[1..]), visited) && Distinct(Positions(queue[1..]))
  {
    PositionsWithout(queue, 0);
    assert Without(queue, 0) == queue[1..];
    forall i | 0 <= i < |queue| - 1 ensures Positions(queue[1..])[i] in visited {
      assert Positions(queue[1..])[i] == queue[i + 1].position;
    }
  }

  /** The snapshot of the front entry of a search state is valid. */
  lemma FrontValid(maze: Maze, start: Cell, queue: seq<Entry>, visited: set<Cell>,
                   closed: set<Cell>, pathTo: map<Cell, seq<Cell>>)
    requires Rectangular(maze)
    requires SearchState(maze, start, queue, visited, closed, pathTo) && queue != []
    ensures var s := Snapshot(visited, queue);
      && SnapshotValid(maze, start, s) && s.current !in closed
      && (s.current == start || IsOpen(maze, s.current))
  {
    FrontReachable(maze, start, queue, visited, closed, pathTo, 0);
    RestOfQueue(queue, visited, closed, pathTo);
  }

  /** The snapshot of the front entry is valid and its path is a shortest walk to its cell. */
  lemma SnapshotFacts(maze: Maze, start: Cell, queue: seq<Entry>, visited: set<Cell>,
                      closed: set<Cell>, pathTo: map<Cell, seq<Cell>>)
    requires Rectangular(maze)
    requires BfsState(maze, start, queue, visited, closed, pathTo) && queue != []
    ensures var s := Snapshot(visited, queue);
      && SnapshotValid(maze, start, s) && ShortestTo(maze, start, s)
      && s.current !in closed && |s.path| == queue[0].distance + 1
      && (s.current == start || IsOpen(maze, s.current))
  {
    var s := Snapshot(visited, queue);
    FrontValid(maze, start, queue, visited, closed, pathTo);
    assert Positions(queue)[0] == queue[0].position;
    assert Known(maze, start, s.current, s.path, visited);
    forall p | Walk(maze, start, p) && Last(p) == s.current ensures |s.path| <= |p| {
      if |p| <= queue[0].distance + 1 {
        ShortestWalk(maze, start, queue, visited, closed, pathTo, p);
      }
    }
  }

  /** One iteration's scan keeps the visited cells inside the grid, and either visits a new cell
      or leaves the visited set as it was and the queue shorter: why the loop stops. */
  lemma RunMeasure(maze: Maze, start: Cell, queue: seq<Entry>, visited: set<Cell>)
    requires Rectangular(maze) && queue != [] && InGrid(maze, start, visited)
    ensures var found := Discover(maze, visited, Neighbors(queue[0].position, |maze|, |maze[0]|));
            var queue', visited' := queue[1..] + Entries(queue[0], found), visited + Elems(found);
      && InGrid(maze, start, visited')
      && (|Universe(maze, start) - visited'| < |Universe(maze, start) - visited| ||
          (visited' == visited && |queue'| < |queue|))
  {
    var u := Universe(maze, start);
    var found := Discover(maze, visited, Neighbors(queue[0].position, |maze|, |maze[0]|));
    DiscoverFacts(maze, visited, Neighbors(queue[0].position, |maze|, |maze[0]|));
    InGridUniverse(maze, start, visited);
    InGridUniverse(maze, start, visited + Elems(found));
    GrowWithin(u, visited, Elems(found));
    if found != [] {
      assert found[0] in Elems(found) && found[0] !in visited;
    }
  }

  /** The snapshots the `while (queue.length > 0)` loop records from the loop state `queue`,
      `visited` on: the front entry is taken off and recorded; when its cell is the end a
      completion snapshot follows and the loop returns, otherwise the fresh open neighbours of
      its cell are marked and queued and the loop goes on. */
  function Run(maze: Maze, start: Cell, end: Cell, queue: seq<Entry>, visited: set<Cell>): seq<Step>
    requires Rectangular(maze) && InGrid(maze, start, visited)
    decreases |Universe(maze, start) - visited|, |queue|
  {
    if queue == [] then []
    else
      var s := Snapshot(visited, queue);
      if queue[0].position == end then [s, s.(queue := [], isComplete := true)]
      else
        var found := Discover(maze, visited, Neighbors(queue[0].position, |maze|, |maze[0]|));
        RunMeasure(maze, start, queue, visited);
        [s] + Run(maze, start, end, queue[1..] + Entries(queue[0], found), visited + Elems(found))
  }

  /** The trace with its last snapshot marked `noPath`. */
  function MarkNoPath(steps: seq<Step>): seq<Step>
    requires steps != []
  {
    steps[|steps| - 1 := Last(steps).(noPath := true)]
  }

  /** What `bfs` returns: nothing when the validation fails, otherwise the loop's snapshots from
      the start entry, the last one marked `noPath` when the queue ran out. */
  function BfsSteps(maze: Maze, start: Cell, end: Cell): seq<Step>
    requires Rectangular(maze)
  {
    if !ValidEndpoints(maze, start, end) then []
    else
      var run := Run(maze, start, end, [Entry(start, [start], 0)], {start});
      if run != [] && !Last(run).isComplete then MarkNoPath(run) else run
  }

  /** The order facts of a run recorded from a state whose visited set is `visited`: every
      snapshot saw at least those cells and none is marked `noPath`, the visited sets grow, each
      snapshot follows the one before it, the completion one comes last, and a run that ends
      without it ends with nothing left to queue. */
  predicate Ordered(maze: Maze, end: Cell, r: seq<Step>, visited: set<Cell>)
    requires Rectangular(maze)
  {
    && (forall i :: 0 <= i < |r| ==> visited <= r[i].visited && !r[i].noPath)
    && VisitedGrows(r) && FirstInFirstOut(maze, r) && CompletesLast(end, r)
    && (r != [] && !Last(r).isComplete ==> Last(r).queue + Expansion(maze, Last(r)) == [])
  }

  /** Putting a snapshot whose visited set `v` lies within `v'`, and that is not marked `noPath`,
      in front of a run whose sets all include `v'` and grow, none marked `noPath`, keeps the
      sets growing, all of them including `v`, and none marked. */
  lemma GrowsCons(s: Step, r: seq<Step>, v: set<Cell>, v': set<Cell>)
    requires s.visited == v && v <= v' && !s.noPath
    requires forall i :: 0 <= i < |r| ==> v' <= r[i].visited && !r[i].noPath
    requires VisitedGrows(r)
    ensures forall i :: 0 <= i < |[s] + r| ==> v <= ([s] + r)[i].visited && !([s] + r)[i].noPath
    ensures VisitedGrows([s] + r)
  {
    var t := [s] + r;
    forall i | 0 <= i < |t| ensures v <= t[i].visited && !t[i].noPath {
      if 0 < i { assert t[i] == r[i - 1]; }
    }
    forall i, j | 0 <= i <= j < |t| ensures t[i].visited <= t[j].visited {
      if 0 < i { assert t[i] == r[i - 1] && t[j] == r[j - 1]; }
      else { assert v <= t[j].visited; }
    }
  }

  /** A snapshot followed by a run whose first snapshot follows it keeps each snapshot following
      the one before. */
  lemma FollowsCons(maze: Maze, s: Step, r: seq<Step>)
    requires Rectangular(maze) && FirstInFirstOut(maze, r)
    requires r != [] ==> Follows(maze, s, r[0])
    ensures FirstInFirstOut(maze, [s] + r)
  {
    var t := [s] + r;
    forall i | 0 <= i < |t| - 1 ensures FollowsAt(maze, t, i) {
      if 0 < i { assert t[i] == r[i - 1] && t[i + 1] == r[i] && FollowsAt(maze, r, i - 1); }
    }
  }

  /** A snapshot of a cell other than the end, not the completion one, keeps the completion last. */
  lemma CompletesCons(end: Cell, s: Step, r: seq<Step>)
    requires !s.isComplete && s.current != end && CompletesLast(end, r)
    ensures CompletesLast(end, [s] + r)
  {
    var t := [s] + r;
    assert forall i :: 0 < i < |t| ==> t[i] == r[i - 1];
  }

  /** A snapshot of a cell other than the end, followed by a run that follows it, is ordered. */
  lemma OrderedCons(maze: Maze, end: Cell, s: Step, r: seq<Step>)
    requires Rectangular(maze)
    requires !s.isComplete && !s.noPath && s.current != end
    requires Ordered(maze, end, r, s.visited + Elems(Expansion(maze, s)))
    requires r != [] ==> Follows(maze, s, r[0])
    requires r == [] ==> s.queue + Expansion(maze, s) == []
    ensures Ordered(maze, end, [s] + r, s.visited)
  {
    GrowsCons(s, r, s.visited, s.visited + Elems(Expansion(maze, s)));
    FollowsCons(maze, s, r);
    CompletesCons(end, s, r);
    assert Last([s] + r) == if r == [] then s else Last(r);
  }

  /** The run from a state whose front entry is the end: its snapshot and the completion one. */
  lemma OrderedCompletion(maze: Maze, end: Cell, s: Step)
    requires Rectangular(maze)
    requires !s.isComplete && !s.noPath && s.current == end
    ensures Ordered(maze, end, [s, s.(queue := [], isComplete := true)], s.visited)
  {
  }

  /** The order facts of every run: empty exactly when the queue is, starting with the front
      entry's snapshot, and ordered. */
  lemma {:induction false} RunOrdered(maze: Maze, start: Cell, end: Cell, queue: seq<Entry>, visited: set<Cell>)
    requires Rectangular(maze) && InGrid(maze, start, visited)
    ensures var r := Run(maze, start, end, queue, visited);
      && (r == [] <==> queue == [])
      && (r != [] ==> r[0] == Snapshot(visited, queue))
      && Ordered(maze, end, r, visited)
    decreases |Universe(maze, start) - visited|, |queue|
  {
    if queue != [] {
      var s := Snapshot(visited, queue);
      if queue[0].position == end {
        OrderedCompletion(maze, end, s);
      } else {
        var found := Discover(maze, visited, Neighbors(queue[0].position, |maze|, |maze[0]|));
        var queue', visited' := queue[1..] + Entries(queue[0], found), visited + Elems(found);
        RunMeasure(maze, start, queue, visited);
        RunOrdered(maze, start, end, queue', visited');
        var r := Run(maze, start, end, queue', visited');
        PositionsAppend(queue[1..], queue[0], found);
        assert s.queue + found == Positions(queue');
        if r != [] {
          assert Positions(queue')[0] == queue'[0].position;
          assert [r[0].current] + r[0].queue == Positions(queue');
        }
        OrderedCons(maze, end, s, r);
      }
    }
  }

  /** The search facts of a run recorded while the cells `closed` were already taken off: every
      snapshot is valid, its path a shortest one and no shorter than `m`, its cell not in
      `closed`; no cell is taken off twice, and paths never get shorter. */
  ghost predicate Searched(maze: Maze, start: Cell, r: seq<Step>, closed: set<Cell>, m: int)
    requires Rectangular(maze)
  {
    && (forall i :: 0 <= i < |r| ==>
          SnapshotValid(maze, start, r[i]) && ShortestTo(maze, start, r[i]) &&
          r[i].current !in closed && m <= |r[i].path|)
    && DistinctCurrents(r) && Layers(r)
  }

  /** A valid snapshot with a shortest path, followed by a run recorded once its cell was closed
      whose paths are no shorter, has the search facts. */
  lemma SearchedCons(maze: Maze, start: Cell, s: Step, r: seq<Step>, closed: set<Cell>, m: int)
    requires Rectangular(maze)
    requires SnapshotValid(maze, start, s) && ShortestTo(maze, start, s) && s.current !in closed
    requires Searched(maze, start, r, closed + {s.current}, m) && |s.path| <= m
    ensures Searched(maze, start, [s] + r, closed, |s.path|)
  {
    var t := [s] + r;
    assert forall i :: 0 < i < |t| ==> t[i] == r[i - 1];
    forall i, j | 0 <= i < j < |t| && !t[j].isComplete ensures t[i].current != t[j].current {
      if 0 < i { assert t[i] == r[i - 1]; }
    }
    forall i, j | 0 <= i <= j < |t| ensures |t[i].path| <= |t[j].path| {
      if 0 < i { assert t[i] == r[i - 1] && t[j] == r[j - 1]; }
    }
  }

  lemma SearchedCompletion(maze: Maze, start: Cell, s: Step, closed: set<Cell>)
    requires Rectangular(maze)
    requires SnapshotValid(maze, start, s) && ShortestTo(maze, start, s) && s.current !in closed
    requires !s.isComplete
    ensures Searched(maze, start, [s, s.(queue := [], isComplete := true)], closed, |s.path|)
  {
    var s' := s.(queue := [], isComplete := true);
    assert ShortestTo(maze, start, s');
  }

  /** The search facts of every run from a non-empty breadth-first state: its snapshots are
      valid, their paths shortest and no shorter than the front entry's, and no cell is taken
      off twice. */
  lemma {:induction false} RunSearch(maze: Maze, start: Cell, end: Cell, queue: seq<Entry>, visited: set<Cell>,
                                     closed: set<Cell>, pathTo: map<Cell, seq<Cell>>)
    requires Rectangular(maze) && InGrid(maze, start, visited)
    requires BfsState(maze, start, queue, visited, closed, pathTo) && queue != []
    ensures Searched(maze, start, Run(maze, start, end, queue, visited), closed, |queue[0].path|)
    decreases |Universe(maze, start) - visited|, |queue|
  {
    var s := Snapshot(visited, queue);
    SnapshotFacts(maze, start, queue, visited, closed, pathTo);
    if queue[0].position == end {
      SearchedCompletion(maze, start, s, closed);
    } else {
      var found := Discover(maze, visited, Neighbors(queue[0].position, |maze|, |maze[0]|));
      var queue', visited' := queue[1..] + Entries(queue[0], found), visited + Elems(found);
      RunMeasure(maze, start, queue, visited);
      BfsExpandPreserves(maze, start, queue, visited, closed, pathTo);
      var r := Run(maze, start, end, queue', visited');
      if queue' != [] {
        RunSearch(maze, start, end, queue', visited', closed + {s.current}, ExtendPaths(pathTo, queue[0].path, found));
        LayeredAfterScan(queue, found);
        SearchedCons(maze, start, s, r, closed, |queue'[0].path|);
      } else {
        SearchedCons(maze, start, s, r, closed, |s.path|);
      }
    }
  }

  /** One iteration from a search state, as the count of snapshots sees it: the front cell is a
      reachable one not yet closed. */
  lemma CountStep(maze: Maze, start: Cell, queue: seq<Entry>, visited: set<Cell>,
                  closed: set<Cell>, pathTo: map<Cell, seq<Cell>>)
    requires Rectangular(maze)
    requires SearchState(maze, start, queue, visited, closed, pathTo) && queue != []
    ensures |Reachable(maze, start) - (closed + {queue[0].position})| == |Reachable(maze, start) - closed| - 1 >= 0
  {
    FrontReachable(maze, start, queue, visited, closed, pathTo, 0);
    CloseOne(Reachable(maze, start), closed, queue[0].position);
  }

  /** Every run from a search state whose closed cells do not include the end records at most
      one snapshot per reachable cell not yet closed, plus the completion one, and a run that
      does not complete leaves no walk from the start to the end. */
  lemma {:induction false} RunCount(maze: Maze, start: Cell, end: Cell, queue: seq<Entry>, visited: set<Cell>,
                                    closed: set<Cell>, pathTo: map<Cell, seq<Cell>>)
    requires Rectangular(maze) && InGrid(maze, start, visited)
    requires SearchState(maze, start, queue, visited, closed, pathTo) && end !in closed
    ensures var r := Run(maze, start, end, queue, visited);
      && |r| <= |Reachable(maze, start) - closed| + 1
      && ((r == [] || !Last(r).isComplete) ==> Unreached(maze, start, end))
    decreases |Universe(maze, start) - visited|, |queue|
  {
    if queue == [] {
      ExhaustedUnreached(maze, start, end, visited, closed, pathTo);
    } else {
      var cur := queue[0];
      CountStep(maze, start, queue, visited, closed, pathTo);
      QueueExpand(maze, start, queue, visited, closed, pathTo);
      if cur.position != end {
        var found := Discover(maze, visited, Neighbors(cur.position, |maze|, |maze[0]|));
        RunMeasure(maze, start, queue, visited);
        RunCount(maze, start, end, queue[1..] + Entries(cur, found), visited + Elems(found),
                 closed + {cur.position}, ExtendPaths(pathTo, cur.path, found));
        var r := Run(maze, start, end, queue[1..] + Entries(cur, found), visited + Elems(found));
        assert Last([Snapshot(visited, queue)] + r) == if r == [] then Snapshot(visited, queue) else Last(r);
      }
    }
  }

  /** The loop state before the first iteration is a breadth-first state. */
  lemma InitialBfs(maze: Maze, start: Cell)
    requires Rectangular(maze)
    ensures BfsState(maze, start, [Entry(start, [start], 0)], {start}, {}, map[start := [start]])
  {
    InitialState(maze, start);
    assert LevelsAt([Entry(start, [start], 0)], 1);
  }

  /** What the run from the start entry is known to satisfy. */
  ghost predicate StartRun(maze: Maze, start: Cell, end: Cell, r: seq<Step>)
    requires Rectangular(maze)
  {
    && r != [] && r[0] == Snapshot({start}, [Entry(start, [start], 0)])
    && Ordered(maze, end, r, {start}) && Searched(maze, start, r, {}, 1)
    && |r| <= |Reachable(maze, start)| + 1
    && (!Last(r).isComplete ==> Unreached(maze, start, end))
  }

  /** A run that reached the end is a breadth-first trace as it stands. */
  lemma CompletedTrace(maze: Maze, start: Cell, end: Cell, r: seq<Step>)
    requires Rectangular(maze) && StartRun(maze, start, end, r) && Last(r).isComplete
    ensures BfsTrace(maze, start, end, r)
  {
    var n := |r| - 1;
    assert r[n].isComplete;
    assert n > 0 && r[n - 1].current == end && r[n] == r[n - 1].(queue := [], isComplete := true);
    assert SnapshotValid(maze, start, r[n]);
    assert ValidPath(maze, start, r[n].path) && Last(r[n].path) == end;
  }

  /** Marking the last snapshot changes no snapshot but in its `noPath` flag. */
  lemma MarkedFields(r: seq<Step>)
    requires r != []
    ensures var t := MarkNoPath(r);
      && |t| == |r| && t[|t| - 1].noPath && !t[|t| - 1].isComplete == !r[|r| - 1].isComplete
      && forall i :: 0 <= i < |t| ==>
           t[i].visited == r[i].visited && t[i].path == r[i].path && t[i].current == r[i].current &&
           t[i].queue == r[i].queue && t[i].isComplete == r[i].isComplete &&
           (i < |t| - 1 ==> t[i].noPath == r[i].noPath)
  {
  }

  /** Marking the last snapshot keeps the search facts. */
  lemma MarkedSearched(maze: Maze, start: Cell, r: seq<Step>, closed: set<Cell>, m: int)
    requires Rectangular(maze) && r != [] && Searched(maze, start, r, closed, m)
    ensures Searched(maze, start, MarkNoPath(r), closed, m)
  {
    var t := MarkNoPath(r);
    MarkedFields(r);
    forall i | 0 <= i < |t|
      ensures SnapshotValid(maze, start, t[i]) && ShortestTo(maze, start, t[i]) && t[i].current !in closed && m <= |t[i].path|
    {
      assert SnapshotValid(maze, start, r[i]) && ShortestTo(maze, start, r[i]);
    }
    assert DistinctCurrents(r) && Layers(r);
  }

  /** Marking the last snapshot keeps the order facts other than the flags. */
  lemma MarkedOrdered(maze: Maze, end: Cell, r: seq<Step>, visited: set<Cell>)
    requires Rectangular(maze) && r != [] && Ordered(maze, end, r, visited) && !Last(r).isComplete
    ensures var t := MarkNoPath(r); VisitedGrows(t) && FirstInFirstOut(maze, t) && CompletesLast(end, t)
  {
    var t := MarkNoPath(r);
    MarkedFields(r);
    assert VisitedGrows(r) && CompletesLast(end, r);
    forall i | 0 <= i < |t| - 1 ensures FollowsAt(maze, t, i) {
      assert FollowsAt(maze, r, i);
    }
  }

  /** A run that ran out of queue is a breadth-first trace once its last snapshot is marked `noPath`. */
  lemma MarkedTrace(maze: Maze, start: Cell, end: Cell, r: seq<Step>)
    requires Rectangular(maze) && StartRun(maze, start, end, r) && !Last(r).isComplete
    ensures BfsTrace(maze, start, end, MarkNoPath(r))
  {
    var t := MarkNoPath(r);
    MarkedFields(r);
    MarkedSearched(maze, start, r, {}, 1);
    MarkedOrdered(maze, end, r, {start});
    assert Last(t).queue + Expansion(maze, Last(t)) == Last(r).queue + Expansion(maze, Last(r));
  }

  /** Every trace `bfs` returns after the validation passed has the breadth-first trace properties. */
  lemma BfsStepsTrace(maze: Maze, start: Cell, end: Cell)
    requires Rectangular(maze) && ValidEndpoints(maze, start, end)
    ensures BfsTrace(maze, start, end, BfsSteps(maze, start, end))
  {
    var queue, visited := [Entry(start, [start], 0)], {start};
    InitialBfs(maze, start);
    RunOrdered(maze, start, end, queue, visited);
    RunSearch(maze, start, end, queue, visited, {}, map[start := [start]]);
    RunCount(maze, start, end, queue, visited, {}, map[start := [start]]);
    var r := Run(maze, start, end, queue, visited);
    assert Positions(queue[1..]) == [];
    assert Reachable(maze, start) - {} == Reachable(maze, start);
    if Last(r).isComplete {
      CompletedTrace(maze, start, end, r);
    } else {
      MarkedTrace(maze, start, end, r);
    }
  }

  /** One pass of the loop body on the state `queue`, `visited`, as the run sees it. */
  lemma RunStep(maze: Maze, start: Cell, end: Cell, queue: seq<Entry>, visited: set<Cell>)
    requires Rectangular(maze) && InGrid(maze, start, visited) && queue != []
    ensures var s := Snapshot(visited, queue);
            var found := Discover(maze, visited, Neighbors(queue[0].position, |maze|, |maze[0]|));
            var queue', visited' := queue[1..] + Entries(queue[0], found), visited + Elems(found);
      && (queue[0].position == end ==>
            Run(maze, start, end, queue, visited) == [s, s.(queue := [], isComplete := true)])
      && (queue[0].position != end ==>
            InGrid(maze, start, visited') &&
            Run(maze, start, end, queue, visited) == [s] + Run(maze, start, end, queue', visited'))
  {
    RunMeasure(maze, start, queue, visited);
  }

  /** `bfs`: validate the endpoints, then take entries off the front of the queue, recording a
      snapshot for each, until the end is taken off or the queue runs out. */
  method Bfs(maze: Maze, start: Cell, end: Cell) returns (steps: seq<Step>)
    requires Rectangular(maze)
    ensures steps == BfsSteps(maze, start, end)
    ensures steps == [] <==> !ValidEndpoints(maze, start, end)
  {
    var rows, cols := |maze|, |maze[0]|;
    if !IsValidCell(start.row, start.col, rows, cols) || !IsValidCell(end.row, end.col, rows, cols) ||
       maze[start.row][start.col] == 1 || maze[end.row][end.col] == 1 {
      return [];
    }
    var visited: set<Cell> := {start};
    var queue := [Entry(start, [start], 0)];
    steps := [];
    ghost var run := Run(maze, start, end, queue, visited);
    while |queue| > 0
      invariant InGrid(maze, start, visited)
      invariant steps + Run(maze, start, end, queue, visited) == run
      invariant steps != [] ==> !Last(steps).isComplete
      decreases |Run(maze, start, end, queue, visited)|
    {
      ghost var done, q, v := steps, queue, visited;
      RunStep(maze, start, end, queue, visited);
      var current := queue[0];
      queue := queue[1..];
      var s := Step(visited, current.path, current.position, Positions(queue), false, false);
      steps := steps + [s];
      if current.position == end {
        var t := Step(visited, current.path, current.position, [], true, false);
        AppendAssoc(done, [s], [t]);
        steps := steps + [t];
        assert steps == run && Last(run) == t;
        return;
      }
      var neighbors := GetNeighbors(current.position.row, current.position.col, rows, cols);
      queue, visited := EnqueueNeighbors(maze, current, neighbors, queue, visited);
      AppendAssoc(done, [s], Run(maze, start, end, queue, visited));
    }
    assert steps == run && run != [] && !Last(run).isComplete;
    steps := MarkNoPath(steps);
  }
}
