# Maze path-finding visualiser: a Dafny model of its searches and its maze generator

The application draws a grid maze (0 is an open cell, 1 a wall). It lets the player run a
breadth-first or a depth-first search from a start cell to an end cell and replays the search
one snapshot at a time. This project models the three pieces that compute:

- `bfs` (src/algorithms/bfs.js), together with its helpers `isValidCell` and `getNeighbors`.
  It validates the endpoints, then takes entries off the front of a FIFO queue. For each entry
  it records a snapshot: the visited set, the entry's path, its cell and the queued cells. It
  then marks and enqueues the fresh open neighbours, tried up, down, left, right. It stops with
  a completion snapshot when the end is taken off. If the queue runs out instead, it marks the
  last snapshot `noPath`.
- `dfs` (src/algorithms/dfs.js). This is the same search on a LIFO stack, with neighbours tried
  right, down, left, up. Its snapshots list the visited cells in the order they were marked.
  The completion snapshot reuses that same list.
- `createEmptyMaze` and `generateMaze` (src/game/MazeGenerator.js). Both stamp a border of walls
  on an open grid. `generateMaze` also places a pillar at every position whose row and column are both even, from 2 up to
  but excluding the side length less 2 (so a side of 6 has pillars only at 2), extends
  each pillar by one cell in a randomly drawn direction, and clears the start (1, 1), the end
  (rows − 2, cols − 2) and the two cells next to each.

Modules, one per file:

- `Grid` (grid.dfy): cells, the maze, bounds, walls, adjacency, walks, simple paths and
  reachability.
- `Frontier` (frontier.dfy): what both searches share. This is the frontier entry, the scan
  that marks and adds fresh neighbours (`Discover`), and the invariant the search state keeps.
- `BreadthFirst` (bfs.dfy) and `DepthFirst` (dfs.dfy): one search each.
- `MazeGenerator` (maze_generator.dfy): both generators.

How each search is modelled:

- Each search is a `method` with the source's loops.
- Its result is proved equal to a specification function (`BfsSteps`, `DfsSteps`). That
  function unrolls the loop state by state (`Run`).
- The lemmas `BfsStepsTrace` and `DfsStepsTrace` prove what the trace promises about every
  such function value: a valid first snapshot, valid paths, growing visited sets, FIFO or LIFO
  order, no cell taken twice, the completion and `noPath` snapshots only at the end, a
  completion exactly when the end is reachable, and at most one snapshot per reachable cell
  plus one. For breadth-first search the lemma also proves shortest paths.

The generators write into an `array2<int>`. The random direction draws are an input sequence.

## Model

| member | source | states |
|---|---|---|
| `BreadthFirst.Bfs` | src/algorithms/bfs.js:1-77 | returns the trace `BfsSteps` defines; the trace is empty exactly when an endpoint is out of bounds or a wall |
| `BreadthFirst.BfsStepsTrace` | src/algorithms/bfs.js:13-76 | for valid endpoints the trace starts with the start cell alone visited, its path `[start]` and an empty queue. Every snapshot's path is a simple walk from the start to its cell through visited cells. Visited cells are the start or open, and queued cells are visited and distinct. Visited sets only grow. Each snapshot's cell and queue are the previous queue plus the cells its scan discovered, and the visited set grew by exactly those. No cell is taken off twice. Path lengths never decrease and each path is a shortest walk. The completion snapshot is last and repeats the one before it (at the end cell) with the queue emptied. Only the last snapshot can carry `noPath`, and it carries exactly one flag. It completes exactly when some walk reaches the end. The trace has at most one snapshot per reachable cell, plus one |
| `BreadthFirst.GetNeighbors` | src/algorithms/bfs.js:83-103 | the result is the in-bounds cells among up, down, left and right, in that order; a cell is in it exactly when it is adjacent and in bounds |
| `BreadthFirst.KeptAll` | src/algorithms/bfs.js:84-100 | trying the four direction offsets in turn keeps the up, down, left, right neighbours |
| `BreadthFirst.NeighborsAdjacent` | src/algorithms/bfs.js:83-103 | a cell is a returned neighbour exactly when it is orthogonally adjacent and passes `isValidCell` |
| `BreadthFirst.EnqueueNeighbors` | src/algorithms/bfs.js:56-68 | the queue gains, in order, one entry per discovered cell with the path extended by it and the distance plus one; the visited set gains exactly those cells |
| `BreadthFirst.ShortestWalk` | src/algorithms/bfs.js:24-69 | in a breadth-first state, every walk no longer than the front entry's path ends at a visited cell whose recorded path is no longer |
| `BreadthFirst.SnapshotFacts` | src/algorithms/bfs.js:28-33 | the snapshot of the front entry is valid, its path is shortest and has distance + 1 cells, and its cell was not taken off before |
| `BreadthFirst.BfsExpandPreserves` | src/algorithms/bfs.js:24-68 | the cell one loop iteration takes off was not taken off before, and the iteration keeps the breadth-first invariant. That invariant is the shared search state, plus three facts: queue distances step up by at most one from front to back, no closed cell's path is longer than the front entry's, and each open neighbour of a closed cell was reached by a path at most one cell longer |
| `BreadthFirst.RunOrdered` | src/algorithms/bfs.js:24-69 | every run is empty exactly when the queue is, starts with the front entry's snapshot, and is in queue order |
| `BreadthFirst.RunSearch` | src/algorithms/bfs.js:24-69 | every run from a breadth-first state has valid snapshots with shortest, non-decreasing paths, and takes no cell off twice |
| `BreadthFirst.RunCount` | src/algorithms/bfs.js:24-74 | a run has at most one snapshot per reachable cell not yet closed, plus one; if it does not complete, no walk reaches the end |
| `BreadthFirst.MarkedTrace` | src/algorithms/bfs.js:71-74 | a run that ran out of queue keeps every trace property once its last snapshot is marked `noPath` |
| `DepthFirst.Dfs` | src/algorithms/dfs.js:1-85 | returns the trace `DfsSteps` defines; the trace is empty exactly when an endpoint holds 1 |
| `DepthFirst.DfsStepsTrace` | src/algorithms/dfs.js:10-84 | for valid endpoints the trace starts with `[start]` visited, its path `[start]` and an empty stack. Every snapshot's path is a simple walk from the start through visited cells. The visited list starts with the start, has no repetitions, and holds only open cells besides the start. Stacked cells are visited and distinct. Each visited list extends the previous one. Each snapshot's stack with its cell on top is the previous stack with the discovered cells pushed in right, down, left, up order, and the visited list grew by those cells in that order. No cell is popped twice. The completion snapshot is last and repeats the previous one, visited list included, with the stack emptied. Only the last snapshot can carry `noPath`, and it carries exactly one flag. It completes exactly when some walk reaches the end. The trace has at most one snapshot per reachable cell, plus one |
| `DepthFirst.PushNeighbors` | src/algorithms/dfs.js:58-76 | the stack gains one entry per discovered cell and the visited list gains those cells, both in the order right, down, left, up |
| `DepthFirst.TriesFacts` | src/algorithms/dfs.js:51-56 | the four tried cells are the four offsets applied in order, and they are exactly the cells adjacent to the popped one |
| `DepthFirst.SnapshotFacts` | src/algorithms/dfs.js:25-35 | the snapshot of the top entry is valid and its cell was not popped before |
| `DepthFirst.DfsExpandPreserves` | src/algorithms/dfs.js:21-76 | the popped cell was not popped before, and the iteration keeps the shared search state. It also keeps the visited list starting with the start and free of repetitions |
| `DepthFirst.RunOrdered` | src/algorithms/dfs.js:21-77 | every run is empty exactly when the stack is, starts with the top entry's snapshot, and is in stack order |
| `DepthFirst.RunSearch` | src/algorithms/dfs.js:21-77 | every run has valid snapshots and pops no cell twice |
| `DepthFirst.RunCount` | src/algorithms/dfs.js:21-82 | a run has at most one snapshot per reachable cell not yet closed, plus one; if it does not complete, no walk reaches the end |
| `DepthFirst.MarkedTrace` | src/algorithms/dfs.js:79-82 | a run that ran out of stack keeps every trace property once its last snapshot is marked `noPath` |
| `Frontier.DiscoverFacts` | src/algorithms/bfs.js:56-68 | the scan discovers exactly the open candidates not visited before it, each once; the order they are discovered in is fixed by `Discover`'s definition, which keeps candidate order |
| `Frontier.ExpandPreserves` | src/algorithms/dfs.js:58-76 | taking any entry off the frontier and adding its discovered neighbours keeps the search state, for a queue and a stack alike. In that state every visited cell is the start or open, and is known by a simple path from the start through visited cells. Each entry carries its cell's path and that path's edge count. The frontier holds no cell twice. The visited cells are the closed ones and the frontier's, and none is both. Every open neighbour of a closed cell is visited |
| `Frontier.ExhaustedUnreached` | src/algorithms/bfs.js:71-74 | when the frontier is empty and the end was never closed, no walk from the start reaches the end |
| `Grid.IsValidCell` | src/algorithms/bfs.js:79-81 | a row and column are valid exactly when both are non-negative and below the row and column counts; the depth-first scan at src/algorithms/dfs.js:62-63 writes the same test inline |
| `Grid.WalkStaysInside` | src/algorithms/bfs.js:24-69 | a set holding the start and closed under stepping to open neighbours contains the end of every walk |
| `MazeGenerator.CreateEmptyMaze` | src/game/MazeGenerator.js:50-65 | a `rows` by `cols` grid holding 1 on the border and 0 everywhere else |
| `MazeGenerator.StampBorder` | src/game/MazeGenerator.js:6-14 | the border cells become 1 and no other cell changes |
| `MazeGenerator.GenerateMaze` | src/game/MazeGenerator.js:1-48 | a `rows` by `cols` grid; each cell is the one `Generated` defines for the draws |
| `MazeGenerator.PlaceRow` | src/game/MazeGenerator.js:17-37 | one outer iteration places and extends every pillar of row `i`, using the next draws in row-major order |
| `MazeGenerator.PlacePillar` | src/game/MazeGenerator.js:19-35 | placing pillar (i, j) sets (i, j) to 1 and, inside the border, the cell along its draw; nothing else changes |
| `MazeGenerator.ClearCorners` | src/game/MazeGenerator.js:39-45 | the six cleared cells become 0 and no other cell changes |
| `MazeGenerator.GeneratedFacts` | src/game/MazeGenerator.js:1-48 | the generated grid is rectangular, rows by cols, and holds only 0 and 1. The six cleared cells are 0 and every pillar is 1. From 4 by 4 on, the whole border is 1 |
| `MazeGenerator.GeneratedEndpoints` | src/game/MazeGenerator.js:39-45 | (1, 1) and (rows − 2, cols − 2) on a generated maze are accepted by both searches' validation |
| `MazeGenerator.ExtensionInside` | src/game/MazeGenerator.js:30-35 | every extension of a pillar lands strictly inside the border, so the guard before it always holds |
| `MazeGenerator.BuiltStep` | src/game/MazeGenerator.js:19-35 | placing pillar (i, j) changes exactly the pillar cell and, inside the border, its extension |
| `MazeGenerator.PillarIndexBound` | src/game/MazeGenerator.js:17-18 | every pillar has its own draw index below the number of pillars |
| `MazeGenerator.PillarCountProduct` | src/game/MazeGenerator.js:17-18 | there are as many pillars (and draws) as pillar rows times pillar columns |

## Left out

- The user interface is not part of this model: App.js, the React components, animation timing
  and game state. Only App.js's use of a 15 × 15 maze with the endpoints (1, 1) and (13, 13)
  informs `GeneratedEndpoints`.
- `Math.random` is an input. `GenerateMaze` takes one direction index (0..3) per pillar, in
  loop order.
- Visited sets keyed by the string `"row,col"` are modelled as sets (breadth-first) or
  insertion-ordered sequences (depth-first) of cells. The depth-first search's key parsing
  returns the same integers, so it is modelled as the identity. Cells are integer pairs.
- `BreadthFirst.Bfs`, `DepthFirst.Dfs`: the maze must be a non-empty grid with rows of equal
  length. The source reads the column count from row 0 and indexes other rows freely.
- `DepthFirst.Dfs`: it requires both endpoint rows inside the grid. The source reads
  `maze[row][col]` without a bounds check, and reading a column of a missing row throws; the
  model does not capture that crash. An endpoint column outside the grid reads as `undefined`,
  which is not 1. The model keeps that case: such an endpoint passes validation.
  Such an end is reached only when it is also the start, since only in-bounds cells are pushed.
- `MazeGenerator.GenerateMaze`: requires at least 3 rows and 3 columns. With fewer than 3 rows
  the source throws, because the clearing step writes into row `rows - 3`, which does not exist.
  With at least 3 rows but only 1 or 2 columns it does not throw. Writing cell (1, 2) lengthens
  row 1, and writing column `cols - 2` or `cols - 3` at a negative index adds a property named
  `-1` or `-2` to that row. The result has rows of unequal length, and the model does not
  capture that.
- `MazeGenerator.CreateEmptyMaze`: requires at least 1 row and 1 column. With zero columns the
  source does not throw: writing column 0 gives each row one cell holding 1, and writing
  column `cols - 1` adds a property named `-1`. With zero rows and some columns it throws when
  it writes into the missing last row, and with zero rows and zero columns it returns an empty
  grid. The model does not capture these cases.
- `MazeGenerator.GeneratedFacts`: states that the border is all wall only from 4 rows and
  4 columns up. At 3 rows or columns, the clearing step opens border cells such as (0, 1).
- The snapshots do not carry each entry's `distance` field, because the source does not record
  it. Entries carry it, and the breadth-first proofs use it. The source's snapshots leave
  `isComplete` undefined until the end; the model uses `false`.
- Aliasing of the snapshots' objects: each snapshot holds a copy of the visited set, or the
  shared visited array in depth-first search. The later in-place `noPath` update of the last
  snapshot is modelled on values (`MarkNoPath`).
- The inner loops are extracted into methods of their own, with the outer loops calling them:
  `EnqueueNeighbors`, `PushNeighbors`, `PlacePillar`, `PlaceRow`, `StampBorder`, `ClearCorners`.
