/** The grid model both searches share: cells, the 0/1 maze, bounds, walls and open
    cells, orthogonal adjacency, walks and simple paths, and the cells reachable from a start. */
module Grid {

  /** A grid position; the source's `{ row, col }` objects. */
  datatype Cell = Cell(row: int, col: int)

  /** The maze as the source holds it: an array of rows of integers, 1 a wall and 0 an open cell. */
  type Maze = seq<seq<int>>

  /** Every row has the length of row 0, which the searches read as the column count. */
  predicate Rectangular(maze: Maze) {
    |maze| > 0 && forall r :: 0 <= r < |maze| ==> |maze[r]| == |maze[0]|
  }

  /** `isValidCell` of bfs.js; dfs.js writes the same test inline. */
  predicate IsValidCell(row: int, col: int, rows: int, cols: int) {
    row >= 0 && row < rows && col >= 0 && col < cols
  }

  predicate InBounds(maze: Maze, c: Cell)
    requires Rectangular(maze)
  {
    IsValidCell(c.row, c.col, |maze|, |maze[0]|)
  }

  /** A cell the validation rejects: it holds 1. Out of bounds nothing is a wall. */
  predicate IsWall(maze: Maze, c: Cell)
    requires Rectangular(maze)
  {
    InBounds(maze, c) && maze[c.row][c.col] == 1
  }

  /** A cell a search may step onto: in bounds and holding 0. */
  predicate IsOpen(maze: Maze, c: Cell)
    requires Rectangular(maze)
  {
    InBounds(maze, c) && maze[c.row][c.col] == 0
  }

  predicate Adjacent(a: Cell, b: Cell) {
    (a.row == b.row && (a.col - b.col == 1 || b.col - a.col == 1)) ||
    (a.col == b.col && (a.row - b.row == 1 || b.row - a.row == 1))
  }

  /** The cell one step away from `c` along a (row, column) offset. */
  function Move(c: Cell, d: (int, int)): Cell {
    Cell(c.row + d.0, c.col + d.1)
  }

  /** The cells one step away from `c` along each offset, in the order of the offsets. */
  function Moves(c: Cell, dirs: seq<(int, int)>): (r: seq<Cell>)
    ensures |r| == |dirs| && forall i :: 0 <= i < |dirs| ==> r[i] == Move(c, dirs[i])
  {
    seq(|dirs|, i requires 0 <= i < |dirs| => Move(c, dirs[i]))
  }

  function Last<T>(s: seq<T>): T
    requires |s| > 0
  {
    s[|s| - 1]
  }

  function Elems<T>(s: seq<T>): set<T> {
    set x | x in s
  }

  /** No element occurs in `s` more than once. */
  predicate Distinct(s: seq<Cell>) {
    forall x :: x in s ==> multiset(s)[x] == 1
  }

  /** Removing position `k` of a sequence without repetitions leaves one without repetitions,
      holding every element but the removed one. */
  lemma DistinctRemove(all: seq<Cell>, k: nat)
    requires k < |all| && Distinct(all)
    ensures var rest := all[..k] + all[k + 1..];
      Distinct(rest) && Elems(all) == Elems(rest) + {all[k]} && all[k] !in Elems(rest)
  {
    var rest := all[..k] + all[k + 1..];
    assert all == all[..k] + [all[k]] + all[k + 1..];
    assert multiset(all) == multiset(rest) + multiset{all[k]};
    forall x | x in rest ensures multiset(rest)[x] == 1 && x != all[k] {
      assert x in multiset(all);
    }
    assert Elems(all) == Elems(rest) + {all[k]};
  }

  predicate Within<T>(s: seq<T>, within: set<T>) {
    forall i :: 0 <= i < |s| ==> s[i] in within
  }

  /** A walk from `start`: consecutive cells are orthogonally adjacent and every cell after the
      first is open. The first cell is `start` itself, which the searches only require not to be a wall. */
  predicate Walk(maze: Maze, start: Cell, p: seq<Cell>)
    requires Rectangular(maze)
  {
    |p| > 0 && p[0] == start &&
    (forall i :: 0 < i < |p| ==> IsOpen(maze, p[i])) &&
    (forall i :: 0 <= i < |p| - 1 ==> Adjacent(p[i], p[i + 1]))
  }

  /** A walk that visits no cell twice: what every snapshot's `path` is. */
  predicate ValidPath(maze: Maze, start: Cell, p: seq<Cell>)
    requires Rectangular(maze)
  {
    Walk(maze, start, p) && Distinct(p)
  }

  ghost predicate ReachableBy(maze: Maze, start: Cell, c: Cell)
    requires Rectangular(maze)
  {
    exists p :: ValidPath(maze, start, p) && Last(p) == c
  }

  /** The start together with every in-bounds cell some simple path from the start ends at. */
  ghost function Reachable(maze: Maze, start: Cell): set<Cell>
    requires Rectangular(maze)
  {
    {start} + set r, c | 0 <= r < |maze| && 0 <= c < |maze[0]| && ReachableBy(maze, start, Cell(r, c)) :: Cell(r, c)
  }

  /** Every in-bounds cell, plus the start (which the depth-first search does not bounds-check). */
  ghost function Universe(maze: Maze, start: Cell): set<Cell>
    requires Rectangular(maze)
  {
    {start} + set r, c | 0 <= r < |maze| && 0 <= c < |maze[0]| :: Cell(r, c)
  }

  /** Every cell of `cells` is the start or inside the grid. */
  predicate InGrid(maze: Maze, start: Cell, cells: set<Cell>)
    requires Rectangular(maze)
  {
    forall c :: c in cells ==> c == start || InBounds(maze, c)
  }

  lemma InGridUniverse(maze: Maze, start: Cell, cells: set<Cell>)
    requires Rectangular(maze) && InGrid(maze, start, cells)
    ensures cells <= Universe(maze, start)
  {
    forall c | c in cells ensures c in Universe(maze, start) {
      InUniverse(maze, start, c);
    }
  }

  lemma InUniverse(maze: Maze, start: Cell, c: Cell)
    requires Rectangular(maze)
    requires c == start || InBounds(maze, c)
    ensures c in Universe(maze, start)
  {
    if c != start {
      assert c == Cell(c.row, c.col);
    }
  }

  /** Extending a simple path by an open neighbour of its last cell that it does not contain
      gives a simple path again. */
  lemma ExtendPath(maze: Maze, start: Cell, p: seq<Cell>, n: Cell)
    requires Rectangular(maze)
    requires ValidPath(maze, start, p) && Adjacent(Last(p), n) && IsOpen(maze, n) && n !in p
    ensures ValidPath(maze, start, p + [n]) && Last(p + [n]) == n
  {
    var q := p + [n];
    forall i | 0 <= i < |q| - 1 ensures Adjacent(q[i], q[i + 1]) {
      if i < |p| - 1 { assert q[i] == p[i] && q[i + 1] == p[i + 1]; }
    }
  }

  /** Dropping the last cell of a walk of two or more cells leaves a walk that ends next to it. */
  lemma WalkPrefix(maze: Maze, start: Cell, p: seq<Cell>)
    requires Rectangular(maze)
    requires Walk(maze, start, p) && |p| > 1
    ensures Walk(maze, start, p[..|p| - 1]) && Adjacent(Last(p[..|p| - 1]), Last(p)) && IsOpen(maze, Last(p))
  {
    var q := p[..|p| - 1];
    forall i | 0 <= i < |q| - 1 ensures Adjacent(q[i], q[i + 1]) {
      assert q[i] == p[i] && q[i + 1] == p[i + 1];
    }
    assert Adjacent(p[|p| - 2], p[|p| - 1]);
  }

  /** Every cell of a set that holds the start and each open neighbour of its members: every walk
      from the start ends inside such a set. */
  lemma {:induction false} WalkStaysInside(maze: Maze, start: Cell, inside: set<Cell>, p: seq<Cell>)
    requires Rectangular(maze)
    requires start in inside
    requires forall u, w :: u in inside && Adjacent(u, w) && IsOpen(maze, w) ==> w in inside
    requires Walk(maze, start, p)
    ensures Last(p) in inside
    decreases |p|
  {
    if |p| > 1 {
      var q := p[..|p| - 1];
      WalkPrefix(maze, start, p);
      WalkStaysInside(maze, start, inside, q);
      assert Adjacent(p[|p| - 2], p[|p| - 1]);
    }
  }

  /** The end of a simple path from the start that is the start or in bounds is reachable. */
  lemma ReachableEnd(maze: Maze, start: Cell, c: Cell, p: seq<Cell>)
    requires Rectangular(maze)
    requires (c == start || InBounds(maze, c)) && ValidPath(maze, start, p) && Last(p) == c
    ensures c in Reachable(maze, start)
  {
    if c != start {
      assert c == Cell(c.row, c.col) && ReachableBy(maze, start, Cell(c.row, c.col));
    }
  }

  /** No walk leads from the start to `end`. */
  ghost predicate Unreached(maze: Maze, start: Cell, end: Cell)
    requires Rectangular(maze)
  {
    forall p :: Walk(maze, start, p) ==> Last(p) != end
  }

  /** Adding cells of `u` to a subset `v` of it: either nothing new was added, or fewer cells of
      `u` are left out. */
  lemma GrowWithin<T>(u: set<T>, v: set<T>, f: set<T>)
    requires v <= u && f <= u
    ensures v + f <= u
    ensures f <= v ==> v + f == v
    ensures !(f <= v) ==> |u - (v + f)| < |u - v|
  {
    if !(f <= v) {
      var x :| x in f && x !in v;
      SubsetCardinality(u - (v + f), (u - v) - {x});
    }
  }

  lemma AppendAssoc<T>(a: seq<T>, b: seq<T>, c: seq<T>)
    ensures a + (b + c) == (a + b) + c
  {
  }

  lemma ElemsAppend<T>(a: seq<T>, b: seq<T>)
    ensures Elems(a + b) == Elems(a) + Elems(b)
  {
    assert forall x :: x in a + b <==> x in a || x in b;
  }

  lemma PrefixTrans<T>(a: seq<T>, b: seq<T>, c: seq<T>)
    requires a <= b && b <= c
    ensures a <= c
  {
    assert a == b[..|a|] && b == c[..|b|];
    assert c[..|b|][..|a|] == c[..|a|];
  }

  lemma SubsetCardinality<T>(a: set<T>, b: set<T>)
    requires a <= b
    ensures |a| <= |b|
  {
    assert b == a + (b - a);
  }
}
