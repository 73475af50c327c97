/** Depth-first search (src/algorithms/dfs.js): a LIFO stack, neighbours tried right, down,
    left, up, and one snapshot per cell popped. The visited set is kept in insertion order,
    as the snapshots list it. */
module DepthFirst {
  import opened Grid
  import opened Frontier

  /** The (row, column) offsets the scan tries: right, down, left, up. */
  const Directions: seq<(int, int)> := [(0, 1), (1, 0), (0, -1), (-1, 0)]

  /** One step snapshot: the visited cells in the order they were marked, a copy of the path to
      the popped cell, that cell, the positions left on the stack, and the two terminal flags. */
  datatype Step = Step(visited: seq<Cell>, path: seq<Cell>, current: Cell, stack: seq<Cell>,
                       isComplete: bool, noPath: bool)

  /** The four cells the scan of `c` tries, right, down, left and up of it. */
  function Tries(c: Cell): seq<Cell> {
    [Cell(c.row, c.col + 1), Cell(c.row + 1, c.col), Cell(c.row, c.col - 1), Cell(c.row - 1, c.col)]
  }

  /** The scan tries exactly the `Directions` offsets, in their order, and so exactly the cells
      orthogonally adjacent to `c`. */
  lemma TriesFacts(c: Cell)
    ensures |Tries(c)| == |Directions|
    ensures forall k :: 0 <= k < |Directions| ==> Tries(c)[k] == Move(c, Directions[k])
    ensures forall w :: w in Tries(c) <==> Adjacent(c, w)
  {
  }

  /** The inner `for (const dir of directions)` loop: each in-bounds, open, unvisited cell among
      the tries is marked visited (appended to the insertion-ordered visited list) and pushed with
      the path extended by it. */
  method PushNeighbors(maze: Maze, current: Entry, stack: seq<Entry>, visited: seq<Cell>)
    returns (stack': seq<Entry>, visited': seq<Cell>)
    requires Rectangular(maze)
    ensures stack' == stack + Entries(current, Discover(maze, Elems(visited), Tries(current.position)))
    ensures visited' == visited + Discover(maze, Elems(visited), Tries(current.position))
  {
    var rows, cols := |maze|, |maze[0]|;
    ghost var cands := Tries(current.position);
    ghost var found: seq<Cell> := [];
    ghost var seen := Elems(visited);
    TriesFacts(current.position);
    stack', visited' := stack, visited;
    for k := 0 to |Directions|
      invariant found + Discover(maze, seen, cands[k..]) == Discover(maze, Elems(visited), cands)
      invariant seen == Elems(visited')
      invariant visited' == visited + found
      invariant stack' == stack + Entries(current, found)
    {
      var newRow := current.position.row + Directions[k].0;
      var newCol := current.position.col + Directions[k].1;
      var n := Cell(newRow, newCol);
      assert n == cands[k];
      ScanStep(maze, Elems(visited), cands, k, found, seen);
      if newRow >= 0 && newRow < rows && newCol >= 0 && newCol < cols && maze[newRow][newCol] == 0 {
        assert IsOpen(maze, n);
        if n !in visited' {
          assert n !in seen;
          EntriesSnoc(current, found, n);
          SnocElems(visited', n);
          AppendAssoc(visited, found, [n]);
          AppendAssoc(stack, Entries(current, found), [Entry(n, current.path + [n], current.distance + 1)]);
          visited' := visited' + [n];
          stack' := stack' + [Entry(n, current.path + [n], current.distance + 1)];
          found := found + [n];
          seen := seen + {n};
        } else {
          assert n in seen;
        }
      }
    }
  }

  /** The validation at the top of `dfs`: neither endpoint holds 1. A cell outside the grid's
      columns reads as `undefined`, which is not 1. */
  predicate ValidEndpoints(maze: Maze, start: Cell, end: Cell)
    requires Rectangular(maze)
  {
    !IsWall(maze, start) && !IsWall(maze, end)
  }

  /** The cells the scan of snapshot `s`'s cell discovers, in the order they are pushed. */
  function Expansion(maze: Maze, s: Step): seq<Cell>
    requires Rectangular(maze)
  {
    Discover(maze, Elems(s.visited), Tries(s.current))
  }

  /** Snapshot `t` is the one after `s`: the stack is last in, first out — `t`'s stack with
      `t`'s cell on top is `s`'s stack with what the scan of `s`'s cell discovered pushed — and
      the visited list grew by exactly those cells, in that order. */
  predicate Follows(maze: Maze, s: Step, t: Step)
    requires Rectangular(maze)
  {
    t.stack + [t.current] == s.stack + Expansion(maze, s) &&
    t.visited == s.visited + Expansion(maze, s)
  }

  /** What every snapshot shows: its path is a simple walk from the start through visited cells
      ending at its cell; the visited list starts with the start, holds no cell twice, and every
      other cell on it is open; the stacked cells are visited and distinct. */
  predicate SnapshotValid(maze: Maze, start: Cell, s: Step)
    requires Rectangular(maze)
  {
    && ValidPath(maze, start, s.path) && Last(s.path) == s.current && Within(s.path, Elems(s.visited))
    && |s.visited| > 0 && s.visited[0] == start && Distinct(s.visited)
    && (forall v :: v in s.visited ==> v == start || IsOpen(maze, v))
    && Within(s.stack, Elems(s.visited)) && Distinct(s.stack)
  }

  /** The first snapshot is taken with only the start visited, its path `[start]` and the stack
      then empty. */
  predicate Starts(start: Cell, steps: seq<Step>) {
    |steps| > 0 && steps[0].visited == [start] && steps[0].path == [start] &&
    steps[0].current == start && steps[0].stack == [] && !steps[0].isComplete
  }

  /** Each snapshot's visited list extends the one before it. */
  predicate VisitedGrows(steps: seq<Step>) {
    forall i, j :: 0 <= i <= j < |steps| ==> steps[i].visited <= steps[j].visited
  }

  /** Snapshot `i + 1`, unless it is the completion one, follows snapshot `i`. */
  predicate FollowsAt(maze: Maze, steps: seq<Step>, i: int)
    requires Rectangular(maze) && 0 <= i < |steps| - 1
  {
    !steps[i + 1].isComplete ==> Follows(maze, steps[i], steps[i + 1])
  }

  /** Every snapshot but the completion one follows its predecessor. */
  predicate LastInFirstOut(maze: Maze, steps: seq<Step>)
    requires Rectangular(maze)
  {
    forall i :: 0 <= i < |steps| - 1 ==> FollowsAt(maze, steps, i)
  }

  /** No cell is popped twice. */
  predicate DistinctCurrents(steps: seq<Step>) {
    forall i, j :: 0 <= i < j < |steps| && !steps[j].isComplete ==> steps[i].current != steps[j].current
  }

  /** The completion snapshot comes last and repeats the one before it (whose cell is the end,
      and whose visited list it shares) with the stack emptied; the end is the cell of no
      earlier snapshot. */
  predicate CompletesLast(end: Cell, steps: seq<Step>) {
    && (forall i :: 0 <= i < |steps| && steps[i].isComplete ==>
          i == |steps| - 1 && i > 0 && steps[i - 1].current == end &&
          steps[i] == steps[i - 1].(stack := [], isComplete := true))
    && (forall i :: 0 <= i < |steps| && steps[i].current == end ==> i >= |steps| - 2)
  }

  /** Only the last snapshot may carry `noPath`, and the last carries exactly one of the two
      flags; with `noPath` the stack is empty and the last scan discovered nothing. */
  predicate EndsOnce(maze: Maze, steps: seq<Step>)
    requires Rectangular(maze)
  {
    && |steps| > 0
    && (forall i :: 0 <= i < |steps| - 1 ==> !steps[i].noPath)
    && Last(steps).noPath != Last(steps).isComplete
    && (Last(steps).noPath ==> Last(steps).stack + Expansion(maze, Last(steps)) == [])
  }

  /** The search completes exactly when some walk leads from the start to the end. */
  ghost predicate Decides(maze: Maze, start: Cell, end: Cell, steps: seq<Step>)
    requires Rectangular(maze) && |steps| > 0
  {
    Last(steps).isComplete <==> exists p :: Walk(maze, start, p) && Last(p) == end
  }

  /** The trace of a search that passed validation. */
  ghost predicate DfsTrace(maze: Maze, start: Cell, end: Cell, steps: seq<Step>)
    requires Rectangular(maze)
  {
    && Starts(start, steps)
    && (forall i :: 0 <= i < |steps| ==> SnapshotValid(maze, start, steps[i]))
    && VisitedGrows(steps)
    && LastInFirstOut(maze, steps)
    && DistinctCurrents(steps)
    && CompletesLast(end, steps)
    && EndsOnce(maze, steps)
    && Decides(maze, start, end, steps)
    && |steps| <= |Reachable(maze, start)| + 1
  }

  /** The snapshot `dfs` records after popping the top entry off `stack`. */
  function Snapshot(visited: seq<Cell>, stack: seq<Entry>): (s: Step)
    requires stack != []
    ensures s.current == Last(stack).position && s.path == Last(stack).path && s.visited == visited
    ensures s.stack + [s.current] == Positions(stack) && !s.isComplete && !s.noPath
  {
    assert Positions(stack[..|stack| - 1]) + [Last(stack).position] == Positions(stack);
    Step(visited, Last(stack).path, Last(stack).position, Positions(stack[..|stack| - 1]), false, false)
  }

  /** One iteration's scan keeps the visited cells inside the grid, and either visits a new cell
      or leaves the visited cells as they were and the stack shorter: why the loop stops. */
  lemma RunMeasure(maze: Maze, start: Cell, stack: seq<Entry>, visited: seq<Cell>)
    requires Rectangular(maze) && stack != [] && InGrid(maze, start, Elems(visited))
    ensures var cur := Last(stack);
            var found := Discover(maze, Elems(visited), Tries(cur.position));
            var stack', visited' := stack[..|stack| - 1] + Entries(cur, found), visited + found;
      && InGrid(maze, start, Elems(visited'))
      && (|Universe(maze, start) - Elems(visited')| < |Universe(maze, start) - Elems(visited)| ||
          (Elems(visited') == Elems(visited) && |stack'| < |stack|))
  {
    var u := Universe(maze, start);
    var found := Discover(maze, Elems(visited), Tries(Last(stack).position));
    DiscoverFacts(maze, Elems(visited), Tries(Last(stack).position));
    ElemsAppend(visited, found);
    InGridUniverse(maze, start, Elems(visited));
    InGridUniverse(maze, start, Elems(visited + found));
    GrowWithin(u, Elems(visited), Elems(found));
    if found != [] {
      assert found[0] in Elems(found) && found[0] !in Elems(visited);
    }
  }

  /** The snapshots the `while (stack.length > 0)` loop records from the loop state `stack`,
      `visited` on: the top entry is popped and recorded; when its cell is the end a completion
      snapshot follows and the loop returns, otherwise the fresh open neighbours of its cell are
      marked and pushed and the loop goes on. */
  function Run(maze: Maze, start: Cell, end: Cell, stack: seq<Entry>, visited: seq<Cell>): seq<Step>
    requires Rectangular(maze) && InGrid(maze, start, Elems(visited))
    decreases |Universe(maze, start) - Elems(visited)|, |stack|
  {
    if stack == [] then []
    else
      var cur := Last(stack);
      var s := Snapshot(visited, stack);
      if cur.position == end then [s, s.(stack := [], isComplete := true)]
      else
        var found := Discover(maze, Elems(visited), Tries(cur.position));
        RunMeasure(maze, start, stack, visited);
        [s] + Run(maze, start, end, stack[..|stack| - 1] + Entries(cur, found), visited + found)
  }

  /** The trace with its last snapshot marked `noPath`. */
  function MarkNoPath(steps: seq<Step>): seq<Step>
    requires steps != []
  {
    steps[|steps| - 1 := Last(steps).(noPath := true)]
  }

  /** What `dfs` returns: nothing when the validation fails, otherwise the loop's snapshots from
      the start entry, the last one marked `noPath` when the stack ran out. */
  function DfsSteps(maze: Maze, start: Cell, end: Cell): seq<Step>
    requires Rectangular(maze)
  {
    if !ValidEndpoints(maze, start, end) then []
    else
      InGridStart(maze, start);
      var run := Run(maze, start, end, [Entry(start, [start], 0)], [start]);
      if run != [] && !Last(run).isComplete then MarkNoPath(run) else run
  }

  lemma SnocElems(s: seq<Cell>, n: Cell)
    ensures Elems(s + [n]) == Elems(s) + {n}
    ensures n in s <==> n in Elems(s)
  {
    assert forall x :: x in s + [n] <==> x in s || x == n;
  }

  lemma InGridStart(maze: Maze, start: Cell)
    requires Rectangular(maze)
    ensures InGrid(maze, start, Elems([start]))
  {
  }

  /** The depth-first invariant on top of the shared one: the visited list starts with the start
      and holds no cell twice. */
  ghost predicate DfsState(maze: Maze, start: Cell, stack: seq<Entry>, visited: seq<Cell>,
                           closed: set<Cell>, pathTo: map<Cell, seq<Cell>>)
    requires Rectangular(maze)
  {
    && SearchState(maze, start, stack, Elems(visited), closed, pathTo)
    && |visited| > 0 && visited[0] == start && Distinct(visited)
  }

  /** The loop state before the first iteration is a depth-first state. */
  lemma InitialDfs(maze: Maze, start: Cell)
    requires Rectangular(maze)
    ensures DfsState(maze, start, [Entry(start, [start], 0)], [start], {}, map[start := [start]])
  {
    InitialState(maze, start);
    assert Elems([start]) == {start};
  }

  /** Popping the top entry and scanning its tries keeps the depth-first invariant. */
  lemma DfsExpandPreserves(maze: Maze, start: Cell, stack: seq<Entry>, visited: seq<Cell>,
                           closed: set<Cell>, pathTo: map<Cell, seq<Cell>>)
    requires Rectangular(maze)
    requires DfsState(maze, start, stack, visited, closed, pathTo) && stack != []
    ensures var cur := Last(stack);
            var found := Discover(maze, Elems(visited), Tries(cur.position));
      && cur.position !in closed
      && DfsState(maze, start, stack[..|stack| - 1] + Entries(cur, found), visited + found,
                  closed + {cur.position}, ExtendPaths(pathTo, cur.path, found))
  {
    var cur := Last(stack);
    var found := Discover(maze, Elems(visited), Tries(cur.position));
    StackExpand(maze, start, stack, visited, closed, pathTo);
    DiscoverFacts(maze, Elems(visited), Tries(cur.position));
    DistinctAppend(visited, found);
  }

  /** The same search state, written with equal frontier and visited terms. */
  lemma SameState(maze: Maze, start: Cell, f: seq<Entry>, f': seq<Entry>, v: set<Cell>, v': set<Cell>,
                  closed: set<Cell>, pathTo: map<Cell, seq<Cell>>)
    requires Rectangular(maze) && f == f' && v == v'
    requires SearchState(maze, start, f, v, closed, pathTo)
    ensures SearchState(maze, start, f', v', closed, pathTo)
  {
  }

  /** Popping the top entry and scanning its tries keeps the shared search invariant. */
  lemma StackExpand(maze: Maze, start: Cell, stack: seq<Entry>, visited: seq<Cell>,
                    closed: set<Cell>, pathTo: map<Cell, seq<Cell>>)
    requires Rectangular(maze)
    requires SearchState(maze, start, stack, Elems(visited), closed, pathTo) && stack != []
    ensures var cur := Last(stack);
            var found := Discover(maze, Elems(visited), Tries(cur.position));
      && cur.position !in closed
      && SearchState(maze, start, stack[..|stack| - 1] + Entries(cur, found), Elems(visited + found),
                     closed + {cur.position}, ExtendPaths(pathTo, cur.path, found))
  {
    var k := |stack| - 1;
    var cur := stack[k];
    var cands := Tries(cur.position);
    var found := Discover(maze, Elems(visited), cands);
    TriesFacts(cur.position);
    ExpandPreserves(maze, start, stack, Elems(visited), closed, pathTo, k, cands);
    assert Without(stack, k) == stack[..k];
    ElemsAppend(visited, found);
    SameState(maze, start, Without(stack, k) + Entries(cur, found), stack[..k] + Entries(cur, found),
              Elems(visited) + Elems(found), Elems(visited + found), closed + {cur.position},
              ExtendPaths(pathTo, cur.path, found));
  }

  /** The rest of the stack of a search state, once its top entry is taken, lies within the
      visited cells and holds no cell twice. */
  lemma RestOfStack(stack: seq<Entry>, visited: set<Cell>, closed: set<Cell>, pathTo: map<Cell, seq<Cell>>)
    requires FrontierAgrees(stack, visited, closed, pathTo) && stack != []
    ensures var rest := Positions(stack[..|stack| - 1]);
      Within(rest, visited) && Distinct(rest)
  {
    var k := |stack| - 1;
    PositionsWithout(stack, k);
    assert Without(stack, k) == stack[..k];
    forall i | 0 <= i < k ensures Positions(stack[..k])[i] in visited {
      assert Positions(stack[..k])[i] == stack[i].position;
    }
  }

  /** The snapshot of the top entry is valid. */
  lemma SnapshotFacts(maze: Maze, start: Cell, stack: seq<Entry>, visited: seq<Cell>,
                      closed: set<Cell>, pathTo: map<Cell, seq<Cell>>)
    requires Rectangular(maze)
    requires DfsState(maze, start, stack, visited, closed, pathTo) && stack != []
    ensures var s := Snapshot(visited, stack);
      SnapshotValid(maze, start, s) && s.current !in closed
  {
    FrontReachable(maze, start, stack, Elems(visited), closed, pathTo, |stack| - 1);
    RestOfStack(stack, Elems(visited), closed, pathTo);
    assert forall v :: v in visited ==> v in Elems(visited);
  }

  /** A run's order facts from a state whose visited list is `visited`: every snapshot's visited
      list extends it and none is marked `noPath`, the lists grow, each snapshot follows the one
      before it, the completion one comes last, and a run that ends without it ends with nothing
      left to push. */
  predicate Ordered(maze: Maze, end: Cell, r: seq<Step>, visited: seq<Cell>)
    requires Rectangular(maze)
  {
    && (forall i :: 0 <= i < |r| ==> visited <= r[i].visited && !r[i].noPath)
    && VisitedGrows(r) && LastInFirstOut(maze, r) && CompletesLast(end, r)
    && (r != [] && !Last(r).isComplete ==> Last(r).stack + Expansion(maze, Last(r)) == [])
  }

  /** Putting a snapshot whose visited list `v` is a prefix of `v'`, and that is not marked
      `noPath`, in front of a run whose lists all extend `v'` and grow, none marked `noPath`,
      keeps the lists growing, all of them extending `v`, and none marked. */
  lemma GrowsCons(s: Step, r: seq<Step>, v: seq<Cell>, v': seq<Cell>)
    requires s.visited == v && v <= v' && !s.noPath
    requires forall i :: 0 <= i < |r| ==> v' <= r[i].visited && !r[i].noPath
    requires VisitedGrows(r)
    ensures forall i :: 0 <= i < |[s] + r| ==> v <= ([s] + r)[i].visited && !([s] + r)[i].noPath
    ensures VisitedGrows([s] + r)
  {
    var t := [s] + r;
    forall i | 0 <= i < |t| ensures v <= t[i].visited && !t[i].noPath {
      if 0 < i { assert t[i] == r[i - 1]; PrefixTrans(v, v', r[i - 1].visited); }
    }
    forall i, j | 0 <= i <= j < |t| ensures t[i].visited <= t[j].visited {
      if 0 < i { assert t[i] == r[i - 1] && t[j] == r[j - 1]; }
      else { assert v <= t[j].visited; }
    }
  }

  /** A snapshot followed by a run whose first snapshot follows it keeps each snapshot following
      the one before. */
  lemma FollowsCons(maze: Maze, s: Step, r: seq<Step>)
    requires Rectangular(maze) && LastInFirstOut(maze, r)
    requires r != [] ==> Follows(maze, s, r[0])
    ensures LastInFirstOut(maze, [s] + r)
  {
    var t := [s] + r;
    forall i | 0 <= i < |t| - 1 ensures FollowsAt(maze, t, i) {
      if 0 < i { assert t[i] == r[i - 1] && t[i + 1] == r[i] && FollowsAt(maze, r, i - 1); }
    }
  }

  /** A snapshot of a cell other than the end, not the completion one, keeps the completion last. */
  lemma CompletesCons(end: Cell, s: Step, r: seq<Step>)
    requires !s.isComplete && s.current != end && CompletesLast(end, r)
    ensures CompletesLast(end, [s] + r)
  {
    var t := [s] + r;
    assert forall i :: 0 < i < |t| ==> t[i] == r[i - 1];
  }

  /** A snapshot of a cell other than the end, followed by a run that follows it, is ordered. */
  lemma OrderedCons(maze: Maze, end: Cell, s: Step, r: seq<Step>)
    requires Rectangular(maze)
    requires !s.isComplete && !s.noPath && s.current != end
    requires Ordered(maze, end, r, s.visited + Expansion(maze, s))
    requires r != [] ==> Follows(maze, s, r[0])
    requires r == [] ==> s.stack + Expansion(maze, s) == []
    ensures Ordered(maze, end, [s] + r, s.visited)
  {
    GrowsCons(s, r, s.visited, s.visited + Expansion(maze, s));
    FollowsCons(maze, s, r);
    CompletesCons(end, s, r);
    assert Last([s] + r) == if r == [] then s else Last(r);
  }

  /** The run from a state whose top entry is the end: its snapshot and the completion one. */
  lemma OrderedCompletion(maze: Maze, end: Cell, s: Step)
    requires Rectangular(maze)
    requires !s.isComplete && !s.noPath && s.current == end
    ensures Ordered(maze, end, [s, s.(stack := [], isComplete := true)], s.visited)
  {
  }

  /** The order facts of every run: empty exactly when the stack is, starting with the top
      entry's snapshot, and ordered. */
  lemma {:induction false} RunOrdered(maze: Maze, start: Cell, end: Cell, stack: seq<Entry>, visited: seq<Cell>)
    requires Rectangular(maze) && InGrid(maze, start, Elems(visited))
    ensures var r := Run(maze, start, end, stack, visited);
      && (r == [] <==> stack == [])
      && (r != [] ==> r[0] == Snapshot(visited, stack))
      && Ordered(maze, end, r, visited)
    decreases |Universe(maze, start) - Elems(visited)|, |stack|
  {
    if stack != [] {
      var cur := Last(stack);
      var s := Snapshot(visited, stack);
      if cur.position == end {
        OrderedCompletion(maze, end, s);
      } else {
        var found := Discover(maze, Elems(visited), Tries(cur.position));
        var stack', visited' := stack[..|stack| - 1] + Entries(cur, found), visited + found;
        RunMeasure(maze, start, stack, visited);
        RunOrdered(maze, start, end, stack', visited');
        var r := Run(maze, start, end, stack', visited');
        PositionsAppend(stack[..|stack| - 1], cur, found);
        assert Positions(stack[..|stack| - 1]) == s.stack;
        if r != [] {
          assert r[0].stack + [r[0].current] == Positions(stack');
        }
        OrderedCons(maze, end, s, r);
      }
    }
  }

  /** The search facts of a run recorded while the cells `closed` were already popped: every
      snapshot is valid and its cell not in `closed`, and no cell is popped twice. */
  ghost predicate Searched(maze: Maze, start: Cell, r: seq<Step>, closed: set<Cell>)
    requires Rectangular(maze)
  {
    && (forall i :: 0 <= i < |r| ==> SnapshotValid(maze, start, r[i]) && r[i].current !in closed)
    && DistinctCurrents(r)
  }

  /** A valid snapshot followed by a run recorded once its cell was closed has the search facts. */
  lemma SearchedCons(maze: Maze, start: Cell, s: Step, r: seq<Step>, closed: set<Cell>)
    requires Rectangular(maze)
    requires SnapshotValid(maze, start, s) && s.current !in closed
    requires Searched(maze, start, r, closed + {s.current})
    ensures Searched(maze, start, [s] + r, closed)
  {
    var t := [s] + r;
    assert forall i :: 0 < i < |t| ==> t[i] == r[i - 1];
    forall i, j | 0 <= i < j < |t| && !t[j].isComplete ensures t[i].current != t[j].current {
      if 0 < i { assert t[i] == r[i - 1]; }
    }
  }

  /** The run from a state whose top entry is the end has the search facts. */
  lemma SearchedCompletion(maze: Maze, start: Cell, s: Step, closed: set<Cell>)
    requires Rectangular(maze)
    requires SnapshotValid(maze, start, s) && s.current !in closed && !s.isComplete
    ensures Searched(maze, start, [s, s.(stack := [], isComplete := true)], closed)
  {
    assert SnapshotValid(maze, start, s.(stack := [], isComplete := true));
  }

  /** The search facts of every run from a depth-first state. */
  lemma {:induction false} RunSearch(maze: Maze, start: Cell, end: Cell, stack: seq<Entry>, visited: seq<Cell>,
                                     closed: set<Cell>, pathTo: map<Cell, seq<Cell>>)
    requires Rectangular(maze) && InGrid(maze, start, Elems(visited))
    requires DfsState(maze, start, stack, visited, closed, pathTo)
    ensures Searched(maze, start, Run(maze, start, end, stack, visited), closed)
    decreases |Universe(maze, start) - Elems(visited)|, |stack|
  {
    if stack != [] {
      var cur := Last(stack);
      var s := Snapshot(visited, stack);
      SnapshotFacts(maze, start, stack, visited, closed, pathTo);
      RunStep(maze, start, end, stack, visited);
      if cur.position == end {
        SearchedCompletion(maze, start, s, closed);
      } else {
        var found := Discover(maze, Elems(visited), Tries(cur.position));
        var stack', visited' := stack[..|stack| - 1] + Entries(cur, found), visited + found;
        DfsExpandPreserves(maze, start, stack, visited, closed, pathTo);
        RunMeasure(maze, start, stack, visited);
        RunSearch(maze, start, end, stack', visited', closed + {cur.position}, ExtendPaths(pathTo, cur.path, found));
        SearchedCons(maze, start, s, Run(maze, start, end, stack', visited'), closed);
      }
    }
  }

  /** One iteration from a search state, as the count of snapshots sees it: the popped cell is a
      reachable one not yet closed. */
  lemma CountStep(maze: Maze, start: Cell, stack: seq<Entry>, visited: seq<Cell>,
                  closed: set<Cell>, pathTo: map<Cell, seq<Cell>>)
    requires Rectangular(maze)
    requires SearchState(maze, start, stack, Elems(visited), closed, pathTo) && stack != []
    ensures var c := Last(stack).position;
      |Reachable(maze, start) - (closed + {c})| == |Reachable(maze, start) - closed| - 1 >= 0
  {
    FrontReachable(maze, start, stack, Elems(visited), closed, pathTo, |stack| - 1);
    CloseOne(Reachable(maze, start), closed, Last(stack).position);
  }

  /** Every run from a search state whose closed cells do not include the end records at most
      one snapshot per reachable cell not yet closed, plus the completion one, and a run that
      does not complete leaves no walk from the start to the end. */
  lemma {:induction false} RunCount(maze: Maze, start: Cell, end: Cell, stack: seq<Entry>, visited: seq<Cell>,
                                    closed: set<Cell>, pathTo: map<Cell, seq<Cell>>)
    requires Rectangular(maze) && InGrid(maze, start, Elems(visited))
    requires SearchState(maze, start, stack, Elems(visited), closed, pathTo) && end !in closed
    ensures var r := Run(maze, start, end, stack, visited);
      && |r| <= |Reachable(maze, start) - closed| + 1
      && ((r == [] || !Last(r).isComplete) ==> Unreached(maze, start, end))
    decreases |Universe(maze, start) - Elems(visited)|, |stack|
  {
    if stack == [] {
      ExhaustedUnreached(maze, start, end, Elems(visited), closed, pathTo);
    } else {
      var cur := Last(stack);
      CountStep(maze, start, stack, visited, closed, pathTo);
      StackExpand(maze, start, stack, visited, closed, pathTo);
      if cur.position != end {
        var found := Discover(maze, Elems(visited), Tries(cur.position));
        RunMeasure(maze, start, stack, visited);
        RunCount(maze, start, end, stack[..|stack| - 1] + Entries(cur, found), visited + found,
                 closed + {cur.position}, ExtendPaths(pathTo, cur.path, found));
        var r := Run(maze, start, end, stack[..|stack| - 1] + Entries(cur, found), visited + found);
        assert Last([Snapshot(visited, stack)] + r) == if r == [] then Snapshot(visited, stack) else Last(r);
      }
    }
  }

  /** What the run from the start entry is known to satisfy. */
  ghost predicate StartRun(maze: Maze, start: Cell, end: Cell, r: seq<Step>)
    requires Rectangular(maze)
  {
    && r != [] && r[0] == Snapshot([start], [Entry(start, [start], 0)])
    && Ordered(maze, end, r, [start]) && Searched(maze, start, r, {})
    && |r| <= |Reachable(maze, start)| + 1
    && (!Last(r).isComplete ==> Unreached(maze, start, end))
  }

  /** A run that reached the end is a depth-first trace as it stands. */
  lemma CompletedTrace(maze: Maze, start: Cell, end: Cell, r: seq<Step>)
    requires Rectangular(maze) && StartRun(maze, start, end, r) && Last(r).isComplete
    ensures DfsTrace(maze, start, end, r)
  {
    var n := |r| - 1;
    assert r[n].isComplete;
    assert n > 0 && r[n - 1].current == end && r[n] == r[n - 1].(stack := [], isComplete := true);
    assert SnapshotValid(maze, start, r[n]);
    assert ValidPath(maze, start, r[n].path) && Last(r[n].path) == end;
  }

  /** Marking the last snapshot changes no snapshot but in its `noPath` flag. */
  lemma MarkedFields(r: seq<Step>)
    requires r != []
    ensures var t := MarkNoPath(r);
      && |t| == |r| && t[|t| - 1].noPath
      && forall i :: 0 <= i < |t| ==>
           t[i].visited == r[i].visited && t[i].path == r[i].path && t[i].current == r[i].current &&
           t[i].stack == r[i].stack && t[i].isComplete == r[i].isComplete &&
           (i < |t| - 1 ==> t[i].noPath == r[i].noPath)
  {
  }

  /** Marking the last snapshot keeps the search facts. */
  lemma MarkedSearched(maze: Maze, start: Cell, r: seq<Step>, closed: set<Cell>)
    requires Rectangular(maze) && r != [] && Searched(maze, start, r, closed)
    ensures Searched(maze, start, MarkNoPath(r), closed)
  {
    var t := MarkNoPath(r);
    MarkedFields(r);
    forall i | 0 <= i < |t| ensures SnapshotValid(maze, start, t[i]) && t[i].current !in closed {
      assert SnapshotValid(maze, start, r[i]);
    }
    assert DistinctCurrents(r);
  }

  /** Marking the last snapshot keeps the order facts other than the flags. */
  lemma MarkedOrdered(maze: Maze, end: Cell, r: seq<Step>, visited: seq<Cell>)
    requires Rectangular(maze) && r != [] && Ordered(maze, end, r, visited) && !Last(r).isComplete
    ensures var t := MarkNoPath(r); VisitedGrows(t) && LastInFirstOut(maze, t) && CompletesLast(end, t)
  {
    var t := MarkNoPath(r);
    MarkedFields(r);
    assert VisitedGrows(r) && CompletesLast(end, r);
    forall i | 0 <= i < |t| - 1 ensures FollowsAt(maze, t, i) {
      assert FollowsAt(maze, r, i);
    }
  }

  /** A run that ran out of stack is a depth-first trace once its last snapshot is marked `noPath`. */
  lemma MarkedTrace(maze: Maze, start: Cell, end: Cell, r: seq<Step>)
    requires Rectangular(maze) && StartRun(maze, start, end, r) && !Last(r).isComplete
    ensures DfsTrace(maze, start, end, MarkNoPath(r))
  {
    var t := MarkNoPath(r);
    MarkedFields(r);
    MarkedSearched(maze, start, r, {});
    MarkedOrdered(maze, end, r, [start]);
    assert Last(t).stack + Expansion(maze, Last(t)) == Last(r).stack + Expansion(maze, Last(r));
  }

  /** Every trace `dfs` returns after the validation passed has the depth-first trace properties. */
  lemma DfsStepsTrace(maze: Maze, start: Cell, end: Cell)
    requires Rectangular(maze) && ValidEndpoints(maze, start, end)
    ensures DfsTrace(maze, start, end, DfsSteps(maze, start, end))
  {
    var stack, visited := [Entry(start, [start], 0)], [start];
    InitialDfs(maze, start);
    InGridStart(maze, start);
    RunOrdered(maze, start, end, stack, visited);
    RunSearch(maze, start, end, stack, visited, {}, map[start := [start]]);
    RunCount(maze, start, end, stack, visited, {}, map[start := [start]]);
    var r := Run(maze, start, end, stack, visited);
    assert Positions(stack[..0]) == [];
    assert Reachable(maze, start) - {} == Reachable(maze, start);
    if Last(r).isComplete {
      CompletedTrace(maze, start, end, r);
    } else {
      MarkedTrace(maze, start, end, r);
    }
  }

  /** One pass of the loop body on the state `stack`, `visited`, as the run sees it. */
  lemma RunStep(maze: Maze, start: Cell, end: Cell, stack: seq<Entry>, visited: seq<Cell>)
    requires Rectangular(maze) && InGrid(maze, start, Elems(visited)) && stack != []
    ensures var s := Snapshot(visited, stack);
            var cur := Last(stack);
            var found := Discover(maze, Elems(visited), Tries(cur.position));
            var stack', visited' := stack[..|stack| - 1] + Entries(cur, found), visited + found;
      && (cur.position == end ==>
            Run(maze, start, end, stack, visited) == [s, s.(stack := [], isComplete := true)])
      && (cur.position != end ==>
            InGrid(maze, start, Elems(visited')) &&
            Run(maze, start, end, stack, visited) == [s] + Run(maze, start, end, stack', visited'))
  {
    RunMeasure(maze, start, stack, visited);
  }

  /** `dfs`: reject a wall at either endpoint, then pop entries off the stack, recording a
      snapshot for each, until the end is popped or the stack runs out. The start and end rows
      must lie in the grid: `maze[row]` is otherwise `undefined` and reading a column of it throws. */
  method Dfs(maze: Maze, start: Cell, end: Cell) returns (steps: seq<Step>)
    requires Rectangular(maze) && 0 <= start.row < |maze| && 0 <= end.row < |maze|
    ensures steps == DfsSteps(maze, start, end)
    ensures steps == [] <==> !ValidEndpoints(maze, start, end)
  {
    if IsWall(maze, start) || IsWall(maze, end) {
      return [];
    }
    var visited := [start];
    var stack := [Entry(start, [start], 0)];
    steps := [];
    InGridStart(maze, start);
    ghost var run := Run(maze, start, end, stack, visited);
    while |stack| > 0
      invariant InGrid(maze, start, Elems(visited))
      invariant steps + Run(maze, start, end, stack, visited) == run
      invariant steps != [] ==> !Last(steps).isComplete
      decreases |Run(maze, start, end, stack, visited)|
    {
      ghost var done := steps;
      RunStep(maze, start, end, stack, visited);
      var current := stack[|stack| - 1];
      stack := stack[..|stack| - 1];
      var s := Step(visited, current.path, current.position, Positions(stack), false, false);
      steps := steps + [s];
      if current.position == end {
        var t := Step(visited, current.path, current.position, [], true, false);
        AppendAssoc(done, [s], [t]);
        steps := steps + [t];
        assert steps == run && Last(run) == t;
        return;
      }
      stack, visited := PushNeighbors(maze, current, stack, visited);
      AppendAssoc(done, [s], Run(maze, start, end, stack, visited));
    }
    assert steps == run && run != [] && !Last(run).isComplete;
    steps := MarkNoPath(steps);
  }
}
