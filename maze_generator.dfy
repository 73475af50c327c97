/** The maze generator: `createEmptyMaze` stamps a border of walls on an open grid, and
    `generateMaze` adds a pillar at every even interior position, extends each pillar by one
    cell in a drawn direction, and clears the cells next to the corners the game uses as
    start and end. The random draws are an input: `dirs[k]` is the direction index (0..3)
    drawn for the `k`-th pillar in row-major order. */
module MazeGenerator {
  import opened Grid
  import BreadthFirst
  import DepthFirst

  /** The extension offsets of `generateMaze` as (dx, dy) pairs, in the order the draw indexes
      them: right, down, left, up. A pillar at row `i`, column `j` extends to row `i + dy`,
      column `j + dx`. */
  const Directions: seq<(int, int)> := [(1, 0), (0, 1), (-1, 0), (0, -1)]

  predicate OnBorder(rows: int, cols: int, r: int, c: int) {
    r == 0 || r == rows - 1 || c == 0 || c == cols - 1
  }

  /** A pillar position: both indices even, from 2 up to but excluding the side length less 2. */
  predicate IsPillar(rows: int, cols: int, i: int, j: int) {
    2 <= i < rows - 2 && 2 <= j < cols - 2 && i % 2 == 0 && j % 2 == 0
  }

  /** The number of pillar indices along a side of length `n`. */
  function Pillars(n: int): (k: nat)
    requires n >= 3
    ensures forall i :: 2 <= i < n - 2 && i % 2 == 0 ==> (i - 2) / 2 < k
    ensures k > 0 ==> 2 <= 2 * k < n - 2
  {
    (n - 3) / 2
  }

  /** The position, in row-major order over rows of `m` positions, of position `b` of row `a`. */
  function Offset(a: nat, b: int, m: int): int
    decreases a
  {
    if a == 0 then b else m + Offset(a - 1, b, m)
  }

  /** Row-major offsets are products and sums. */
  lemma {:induction false} OffsetProduct(a: nat, b: int, m: int)
    ensures Offset(a, b, m) == a * m + b
    decreases a
  {
    if a > 0 {
      OffsetProduct(a - 1, b, m);
    }
  }

  /** The position of an earlier row and a column inside a row lies before any later row. */
  lemma {:induction false} OffsetBound(a: nat, b: int, m: int, n: nat)
    requires a < n && 0 <= b < m
    ensures 0 <= Offset(a, b, m) < Offset(n, 0, m)
    decreases n
  {
    if a < n - 1 {
      OffsetBound(a, b, m, n - 1);
    } else {
      OffsetShift(a, b, m);
      OffsetNonNegative(a, m);
    }
  }

  /** Moving `b` positions along a row moves the offset by `b`. */
  lemma {:induction false} OffsetShift(a: nat, b: int, m: int)
    ensures Offset(a, b, m) == Offset(a, 0, m) + b
    decreases a
  {
    if a > 0 {
      OffsetShift(a - 1, b, m);
    }
  }

  /** The offset after position `b` of row `a` is the next one; the one after the last position
      of a row is the first of the next row. */
  lemma OffsetNext(a: nat, b: int, m: int)
    ensures Offset(a, b + 1, m) == Offset(a, b, m) + 1
    ensures b == m ==> Offset(a, b, m) == Offset(a + 1, 0, m)
  {
    OffsetShift(a, b, m);
    OffsetShift(a, b + 1, m);
  }

  /** Offsets over rows of no negative length are not negative. */
  lemma {:induction false} OffsetNonNegative(a: nat, m: int)
    requires m >= 0
    ensures Offset(a, 0, m) >= 0
    decreases a
  {
    if a > 0 {
      OffsetNonNegative(a - 1, m);
    }
  }

  /** The draw index of pillar (i, j): the pillars are met in row-major order. */
  function PillarIndex(cols: int, i: int, j: int): int
    requires cols >= 3 && i >= 2
  {
    Offset((i - 2) / 2, (j - 2) / 2, Pillars(cols))
  }

  /** The number of pillars, one draw each. */
  function PillarCount(rows: int, cols: int): nat
    requires rows >= 3 && cols >= 3
  {
    OffsetNonNegative(Pillars(rows), Pillars(cols));
    Offset(Pillars(rows), 0, Pillars(cols))
  }

  /** One draw per pillar, each an index into `Directions`. */
  predicate ValidDraws(rows: int, cols: int, dirs: seq<int>)
    requires rows >= 3 && cols >= 3
  {
    |dirs| == PillarCount(rows, cols) && forall k :: 0 <= k < |dirs| ==> 0 <= dirs[k] < |Directions|
  }

  /** There are as many pillars as pillar rows times pillar columns. */
  lemma PillarCountProduct(rows: int, cols: int)
    requires rows >= 3 && cols >= 3
    ensures PillarCount(rows, cols) == Pillars(rows) * Pillars(cols)
  {
    OffsetProduct(Pillars(rows), 0, Pillars(cols));
  }

  /** Every pillar has a draw of its own. */
  lemma PillarIndexBound(rows: int, cols: int, i: int, j: int)
    requires rows >= 3 && cols >= 3 && IsPillar(rows, cols, i, j)
    ensures 0 <= PillarIndex(cols, i, j) < PillarCount(rows, cols)
  {
    OffsetBound((i - 2) / 2, (j - 2) / 2, Pillars(cols), Pillars(rows));
  }

  /** Pillar (pi, pj) comes before the position (i, j) in the row-major order of the loops. */
  predicate Before(pi: int, pj: int, i: int, j: int) {
    pi < i || (pi == i && pj < j)
  }

  /** Pillar (pi, pj) precedes (i, j) and drew direction `d`. */
  predicate Drew(rows: int, cols: int, dirs: seq<int>, i: int, j: int, pi: int, pj: int, d: int)
    requires rows >= 3 && cols >= 3
  {
    && IsPillar(rows, cols, pi, pj) && Before(pi, pj, i, j)
    && 0 <= PillarIndex(cols, pi, pj) < |dirs| && dirs[PillarIndex(cols, pi, pj)] == d
  }

  /** Cell (r, c) once the border is stamped and every pillar before (i, j) is placed and
      extended: a wall on the border, at such a pillar, and at a cell such a pillar extended to
      (the pillar to its left drew right, the one above drew down, the one to its right drew
      left or the one below drew up); open everywhere else. */
  function Built(rows: int, cols: int, dirs: seq<int>, i: int, j: int, r: int, c: int): (v: int)
    requires rows >= 3 && cols >= 3
    ensures v == 0 || v == 1
  {
    if OnBorder(rows, cols, r, c) then 1
    else if IsPillar(rows, cols, r, c) && Before(r, c, i, j) then 1
    else if Drew(rows, cols, dirs, i, j, r, c - 1, 0) || Drew(rows, cols, dirs, i, j, r - 1, c, 1) ||
            Drew(rows, cols, dirs, i, j, r, c + 1, 2) || Drew(rows, cols, dirs, i, j, r + 1, c, 3) then 1
    else 0
  }

  /** The six cells the generator clears last, next to the start (1, 1) and the end
      (rows - 2, cols - 2). */
  predicate Cleared(rows: int, cols: int, r: int, c: int) {
    || (r == 1 && c == 1) || (r == 1 && c == 2) || (r == 2 && c == 1)
    || (r == rows - 2 && c == cols - 2) || (r == rows - 2 && c == cols - 3) || (r == rows - 3 && c == cols - 2)
  }

  /** Cell (r, c) of the maze `generateMaze` returns for the draws `dirs`: every pillar comes
      before row `rows`. */
  function Generated(rows: int, cols: int, dirs: seq<int>, r: int, c: int): int
    requires rows >= 3 && cols >= 3
  {
    if Cleared(rows, cols, r, c) then 0 else Built(rows, cols, dirs, rows, 0, r, c)
  }

  /** The generated maze as the row-of-rows grid the searches take. */
  function Layout(rows: int, cols: int, dirs: seq<int>): (maze: Maze)
    requires rows >= 3 && cols >= 3
    ensures |maze| == rows && forall r :: 0 <= r < rows ==> |maze[r]| == cols
    ensures forall r, c :: 0 <= r < rows && 0 <= c < cols ==> maze[r][c] == Generated(rows, cols, dirs, r, c)
  {
    seq(rows, r => seq(cols, c => Generated(rows, cols, dirs, r, c)))
  }

  /** Every extension lands strictly inside the border, so the bounds test before it never fails. */
  lemma ExtensionInside(rows: int, cols: int, i: int, j: int, d: int)
    requires IsPillar(rows, cols, i, j) && 0 <= d < |Directions|
    ensures var dir := Directions[d];
      0 < i + dir.1 < rows - 1 && 0 < j + dir.0 < cols - 1 && !OnBorder(rows, cols, i + dir.1, j + dir.0)
  {
  }

  /** What the generated maze is: a grid of `rows` rows of `cols` cells, each 0 or 1; the six
      cleared cells are open; every pillar is a wall, since no cleared cell is a pillar; and from
      four rows and four columns on, no cleared cell is on the border, so the whole border is wall. */
  lemma GeneratedFacts(rows: int, cols: int, dirs: seq<int>)
    requires rows >= 3 && cols >= 3 && ValidDraws(rows, cols, dirs)
    ensures var maze := Layout(rows, cols, dirs);
      && Rectangular(maze) && |maze| == rows && |maze[0]| == cols
      && (forall r, c :: 0 <= r < rows && 0 <= c < cols ==> maze[r][c] == 0 || maze[r][c] == 1)
      && (forall r, c :: 0 <= r < rows && 0 <= c < cols && Cleared(rows, cols, r, c) ==> maze[r][c] == 0)
      && (forall r, c :: IsPillar(rows, cols, r, c) ==> maze[r][c] == 1)
      && (rows >= 4 && cols >= 4 ==>
            forall r, c :: 0 <= r < rows && 0 <= c < cols && OnBorder(rows, cols, r, c) ==> maze[r][c] == 1)
  {
    var maze := Layout(rows, cols, dirs);
    forall r, c | IsPillar(rows, cols, r, c) ensures maze[r][c] == 1 {
      assert !Cleared(rows, cols, r, c);
    }
  }

  /** The endpoints the game places on a generated maze, (1, 1) and (rows - 2, cols - 2), are
      accepted by both searches. */
  lemma GeneratedEndpoints(rows: int, cols: int, dirs: seq<int>)
    requires rows >= 3 && cols >= 3 && ValidDraws(rows, cols, dirs)
    ensures var maze := Layout(rows, cols, dirs);
      && Rectangular(maze)
      && BreadthFirst.ValidEndpoints(maze, Cell(1, 1), Cell(rows - 2, cols - 2))
      && DepthFirst.ValidEndpoints(maze, Cell(1, 1), Cell(rows - 2, cols - 2))
  {
    var maze := Layout(rows, cols, dirs);
    assert Cleared(rows, cols, 1, 1) && Cleared(rows, cols, rows - 2, cols - 2);
    assert maze[1][1] == 0 && maze[rows - 2][cols - 2] == 0;
  }

  /** The border loops both generators share: the first and last cell of every row, then the
      first and last row, become walls. */
  method StampBorder(maze: array2<int>)
    requires maze.Length0 >= 1 && maze.Length1 >= 1
    modifies maze
    ensures forall r, c :: 0 <= r < maze.Length0 && 0 <= c < maze.Length1 ==>
      maze[r, c] == if OnBorder(maze.Length0, maze.Length1, r, c) then 1 else old(maze[r, c])
  {
    var rows, cols := maze.Length0, maze.Length1;
    for i := 0 to rows
      invariant forall r, c :: 0 <= r < rows && 0 <= c < cols ==>
        maze[r, c] == if r < i && (c == 0 || c == cols - 1) then 1 else old(maze[r, c])
    {
      maze[i, 0] := 1;
      maze[i, cols - 1] := 1;
    }
    for j := 0 to cols
      invariant forall r, c :: 0 <= r < rows && 0 <= c < cols ==>
        maze[r, c] == if c == 0 || c == cols - 1 || (c < j && (r == 0 || r == rows - 1)) then 1 else old(maze[r, c])
    {
      maze[0, j] := 1;
      maze[rows - 1, j] := 1;
    }
  }

  /** `createEmptyMaze`: an open grid with a border of walls. */
  method CreateEmptyMaze(rows: int, cols: int) returns (maze: array2<int>)
    requires rows >= 1 && cols >= 1
    ensures fresh(maze)
    ensures maze.Length0 == rows && maze.Length1 == cols
    ensures forall r, c :: 0 <= r < rows && 0 <= c < cols ==>
      maze[r, c] == if OnBorder(rows, cols, r, c) then 1 else 0
  {
    maze := new int[rows, cols]((r, c) => 0);
    StampBorder(maze);
  }

  /** A pillar comes before the next pillar position in row `i` exactly when it comes before
      (i, j) or is (i, j) itself. */
  lemma BeforeStep(rows: int, cols: int, i: int, j: int, pi: int, pj: int)
    requires IsPillar(rows, cols, i, j) && IsPillar(rows, cols, pi, pj)
    ensures Before(pi, pj, i, j + 2) <==> Before(pi, pj, i, j) || (pi == i && pj == j)
  {
  }

  /** Pillar (pi, pj) has drawn `d` before the next pillar position in row `i` exactly when it
      had before (i, j), or it is (i, j) and drew `d`. */
  lemma DrewStep(rows: int, cols: int, dirs: seq<int>, i: int, j: int, pi: int, pj: int, d: int)
    requires rows >= 3 && cols >= 3
    requires IsPillar(rows, cols, i, j) && 0 <= PillarIndex(cols, i, j) < |dirs|
    ensures Drew(rows, cols, dirs, i, j + 2, pi, pj, d) <==>
      Drew(rows, cols, dirs, i, j, pi, pj, d) || (pi == i && pj == j && dirs[PillarIndex(cols, i, j)] == d)
  {
    if IsPillar(rows, cols, pi, pj) {
      BeforeStep(rows, cols, i, j, pi, pj);
    }
  }

  /** At a pillar position off the border, placing pillar (i, j) changes only (i, j) itself. */
  lemma BuiltStepPillar(rows: int, cols: int, dirs: seq<int>, i: int, j: int, r: int, c: int)
    requires rows >= 3 && cols >= 3
    requires IsPillar(rows, cols, i, j) && IsPillar(rows, cols, r, c)
    ensures Built(rows, cols, dirs, i, j + 2, r, c) ==
      if r == i && c == j then 1 else Built(rows, cols, dirs, i, j, r, c)
  {
    BeforeStep(rows, cols, i, j, r, c);
  }

  /** At any other cell off the border, placing pillar (i, j) and extending it along its draw
      changes only the cell it extends to. */
  lemma BuiltStepOther(rows: int, cols: int, dirs: seq<int>, i: int, j: int, r: int, c: int)
    requires rows >= 3 && cols >= 3
    requires IsPillar(rows, cols, i, j) && 0 <= PillarIndex(cols, i, j) < |dirs|
    requires !IsPillar(rows, cols, r, c) && !OnBorder(rows, cols, r, c)
    ensures var d := dirs[PillarIndex(cols, i, j)];
      Built(rows, cols, dirs, i, j + 2, r, c) ==
        if (d == 0 && r == i && c == j + 1) || (d == 1 && r == i + 1 && c == j) ||
           (d == 2 && r == i && c == j - 1) || (d == 3 && r == i - 1 && c == j) then 1
        else Built(rows, cols, dirs, i, j, r, c)
  {
    DrewStep(rows, cols, dirs, i, j, r, c - 1, 0);
    DrewStep(rows, cols, dirs, i, j, r - 1, c, 1);
    DrewStep(rows, cols, dirs, i, j, r, c + 1, 2);
    DrewStep(rows, cols, dirs, i, j, r + 1, c, 3);
  }

  /** The cells placing pillar (i, j) and extending it along the offset `d` turns into walls:
      the pillar itself and, when it lies inside the border, the cell `d` leads to. */
  predicate Stamped(rows: int, cols: int, i: int, j: int, d: (int, int), r: int, c: int) {
    (r == i && c == j) || (r == i + d.1 && c == j + d.0 && !OnBorder(rows, cols, r, c))
  }

  /** Placing pillar (i, j) and extending it along its draw changes cell (r, c) from the state
      before (i, j) to the state before the next pillar position in row `i` exactly when the cell
      is the pillar or, inside the border, its extension. */
  lemma BuiltStepAt(rows: int, cols: int, dirs: seq<int>, i: int, j: int, r: int, c: int)
    requires rows >= 3 && cols >= 3
    requires IsPillar(rows, cols, i, j) && 0 <= PillarIndex(cols, i, j) < |dirs|
    requires 0 <= dirs[PillarIndex(cols, i, j)] < |Directions|
    ensures Built(rows, cols, dirs, i, j + 2, r, c) ==
      if Stamped(rows, cols, i, j, Directions[dirs[PillarIndex(cols, i, j)]], r, c) then 1
      else Built(rows, cols, dirs, i, j, r, c)
  {
    if OnBorder(rows, cols, r, c) {
    } else if IsPillar(rows, cols, r, c) {
      BuiltStepPillar(rows, cols, dirs, i, j, r, c);
    } else {
      BuiltStepOther(rows, cols, dirs, i, j, r, c);
    }
  }

  /** Placing pillar (i, j) and extending it along its draw takes the maze from the state before
      (i, j) to the state before the next pillar position in its row. */
  lemma BuiltStep(rows: int, cols: int, dirs: seq<int>, i: int, j: int)
    requires rows >= 3 && cols >= 3 && ValidDraws(rows, cols, dirs)
    requires IsPillar(rows, cols, i, j) && 0 <= PillarIndex(cols, i, j) < |dirs|
    ensures forall r, c :: 0 <= r < rows && 0 <= c < cols ==>
      Built(rows, cols, dirs, i, j + 2, r, c) ==
        if Stamped(rows, cols, i, j, Directions[dirs[PillarIndex(cols, i, j)]], r, c) then 1
        else Built(rows, cols, dirs, i, j, r, c)
  {
    forall r, c | 0 <= r < rows && 0 <= c < cols {
      BuiltStepAt(rows, cols, dirs, i, j, r, c);
    }
  }

  /** Past the last pillar position in row `i`, the state is the one before row `i + 2`. */
  lemma BuiltRow(rows: int, cols: int, dirs: seq<int>, i: int, j: int)
    requires rows >= 3 && cols >= 3 && ValidDraws(rows, cols, dirs)
    requires i % 2 == 0 && j >= cols - 2
    ensures forall r, c :: Built(rows, cols, dirs, i, j, r, c) == Built(rows, cols, dirs, i + 2, 2, r, c)
  {
    forall pi, pj | IsPillar(rows, cols, pi, pj)
      ensures Before(pi, pj, i, j) <==> Before(pi, pj, i + 2, 2)
    {
    }
  }

  /** Past the last pillar row, every pillar has been placed. */
  lemma BuiltAll(rows: int, cols: int, dirs: seq<int>, i: int)
    requires rows >= 3 && cols >= 3 && ValidDraws(rows, cols, dirs)
    requires i >= rows - 2
    ensures forall r, c :: Built(rows, cols, dirs, i, 2, r, c) == Built(rows, cols, dirs, rows, 0, r, c)
  {
    forall pi, pj | IsPillar(rows, cols, pi, pj)
      ensures Before(pi, pj, i, 2) && Before(pi, pj, rows, 0)
    {
    }
  }

  /** The last step of `generateMaze`: open the two cells next to (1, 1) and to
      (rows - 2, cols - 2), and those cells themselves. */
  method ClearCorners(maze: array2<int>)
    requires maze.Length0 >= 3 && maze.Length1 >= 3
    modifies maze
    ensures forall r, c :: 0 <= r < maze.Length0 && 0 <= c < maze.Length1 ==>
      maze[r, c] == if Cleared(maze.Length0, maze.Length1, r, c) then 0 else old(maze[r, c])
  {
    var rows, cols := maze.Length0, maze.Length1;
    maze[1, 1] := 0;
    maze[1, 2] := 0;
    maze[2, 1] := 0;
    maze[rows - 2, cols - 2] := 0;
    maze[rows - 2, cols - 3] := 0;
    maze[rows - 3, cols - 2] := 0;
  }

  /** The body of the inner loop of `generateMaze`: place pillar (i, j), then extend it along
      draw `k` if the extension stays inside the border. */
  method PlacePillar(maze: array2<int>, dirs: seq<int>, i: int, j: int, k: int)
    requires maze.Length0 >= 3 && maze.Length1 >= 3 && ValidDraws(maze.Length0, maze.Length1, dirs)
    requires IsPillar(maze.Length0, maze.Length1, i, j) && k == PillarIndex(maze.Length1, i, j)
    requires forall r, c :: 0 <= r < maze.Length0 && 0 <= c < maze.Length1 ==>
      maze[r, c] == Built(maze.Length0, maze.Length1, dirs, i, j, r, c)
    modifies maze
    ensures forall r, c :: 0 <= r < maze.Length0 && 0 <= c < maze.Length1 ==>
      maze[r, c] == Built(maze.Length0, maze.Length1, dirs, i, j + 2, r, c)
  {
    var rows, cols := maze.Length0, maze.Length1;
    PillarIndexBound(rows, cols, i, j);
    BuiltStep(rows, cols, dirs, i, j);
    maze[i, j] := 1;
    var dir := Directions[dirs[k]];
    var newRow := i + dir.1;
    var newCol := j + dir.0;
    if newRow > 0 && newRow < rows - 1 && newCol > 0 && newCol < cols - 1 {
      maze[newRow, newCol] := 1;
    }
  }

  /** One pass of the outer loop of `generateMaze`: place and extend every pillar of row `i`,
      consuming one draw each from index `k` on. */
  method PlaceRow(maze: array2<int>, dirs: seq<int>, i: int, k: int) returns (next: int)
    requires maze.Length0 >= 3 && maze.Length1 >= 3 && ValidDraws(maze.Length0, maze.Length1, dirs)
    requires 2 <= i < maze.Length0 - 2 && i % 2 == 0 && k == PillarIndex(maze.Length1, i, 2)
    requires forall r, c :: 0 <= r < maze.Length0 && 0 <= c < maze.Length1 ==>
      maze[r, c] == Built(maze.Length0, maze.Length1, dirs, i, 2, r, c)
    modifies maze
    ensures next == PillarIndex(maze.Length1, i + 2, 2)
    ensures forall r, c :: 0 <= r < maze.Length0 && 0 <= c < maze.Length1 ==>
      maze[r, c] == Built(maze.Length0, maze.Length1, dirs, i + 2, 2, r, c)
  {
    var cols := maze.Length1;
    next := k;
    var j := 2;
    while j < cols - 2
      invariant 2 <= j && j % 2 == 0 && (j > 2 ==> j <= cols - 1)
      invariant next == PillarIndex(cols, i, j)
      invariant forall r, c :: 0 <= r < maze.Length0 && 0 <= c < cols ==>
        maze[r, c] == Built(maze.Length0, cols, dirs, i, j, r, c)
      decreases cols - j
    {
      PlacePillar(maze, dirs, i, j, next);
      OffsetNext((i - 2) / 2, (j - 2) / 2, Pillars(cols));
      next := next + 1;
      j := j + 2;
    }
    BuiltRow(maze.Length0, cols, dirs, i, j);
    OffsetNext((i - 2) / 2, (j - 2) / 2, Pillars(cols));
  }

  /** `generateMaze` with the draws `dirs` in place of the random ones. */
  method GenerateMaze(rows: int, cols: int, dirs: seq<int>) returns (maze: array2<int>)
    requires rows >= 3 && cols >= 3 && ValidDraws(rows, cols, dirs)
    ensures fresh(maze)
    ensures maze.Length0 == rows && maze.Length1 == cols
    ensures forall r, c :: 0 <= r < rows && 0 <= c < cols ==> maze[r, c] == Generated(rows, cols, dirs, r, c)
  {
    maze := new int[rows, cols]((r, c) => 0);
    StampBorder(maze);
    var k := 0;
    var i := 2;
    while i < rows - 2
      invariant 2 <= i && i % 2 == 0 && (i > 2 ==> i <= rows - 1)
      invariant k == PillarIndex(cols, i, 2)
      invariant forall r, c :: 0 <= r < rows && 0 <= c < cols ==> maze[r, c] == Built(rows, cols, dirs, i, 2, r, c)
      decreases rows - i
    {
      k := PlaceRow(maze, dirs, i, k);
      i := i + 2;
    }
    BuiltAll(rows, cols, dirs, i);
    ClearCorners(maze);
  }
}
