/** What the two searches have in common: the frontier entry, the scan of a cell's neighbours
    that marks and enqueues the fresh ones, and the invariant the search state keeps whichever
    entry the frontier gives up next. */
module Frontier {
  import opened Grid

  /** A frontier record `{ position, path, distance }`: a discovered cell, the path that
      reached it, and that path's edge count. */
  datatype Entry = Entry(position: Cell, path: seq<Cell>, distance: int)

  /** The positions of the frontier's entries, in frontier order (`queue.map(node => node.position)`). */
  function Positions(frontier: seq<Entry>): (r: seq<Cell>)
    ensures |r| == |frontier| && forall i :: 0 <= i < |frontier| ==> r[i] == frontier[i].position
  {
    seq(|frontier|, i requires 0 <= i < |frontier| => frontier[i].position)
  }

  /** The cells a scan over the candidate neighbours `cands` marks visited and adds to the
      frontier, in the order it adds them: each open candidate not visited before it, where a
      cell the scan has just marked counts as visited for the rest of the scan. */
  function Discover(maze: Maze, visited: set<Cell>, cands: seq<Cell>): seq<Cell>
    requires Rectangular(maze)
    decreases |cands|
  {
    if cands == [] then []
    else if IsOpen(maze, cands[0]) && cands[0] !in visited then
      [cands[0]] + Discover(maze, visited + {cands[0]}, cands[1..])
    else
      Discover(maze, visited, cands[1..])
  }

  /** The scan discovers exactly the open candidates not visited before it, each once. */
  lemma {:induction false} DiscoverFacts(maze: Maze, visited: set<Cell>, cands: seq<Cell>)
    requires Rectangular(maze)
    ensures var found := Discover(maze, visited, cands);
      && (forall i :: 0 <= i < |found| ==> IsOpen(maze, found[i]) && found[i] !in visited && found[i] in cands)
      && Distinct(found)
      && (forall x :: x in cands && IsOpen(maze, x) && x !in visited ==> x in found)
    decreases |cands|
  {
    if cands != [] {
      var c := cands[0];
      if IsOpen(maze, c) && c !in visited {
        DiscoverFacts(maze, visited + {c}, cands[1..]);
        var later := Discover(maze, visited + {c}, cands[1..]);
        assert Discover(maze, visited, cands) == [c] + later;
        forall x | x in cands && IsOpen(maze, x) && x !in visited
          ensures x in [c] + later
        {
          if x != c { assert x in cands[1..]; }
        }
      } else {
        DiscoverFacts(maze, visited, cands[1..]);
        forall x | x in cands && IsOpen(maze, x) && x !in visited
          ensures x in Discover(maze, visited, cands[1..])
        {
          assert x in cands[1..];
        }
      }
    }
  }

  /** The entries a scan from `current` adds for the discovered cells:
      `{ position: n, path: [...current.path, n], distance: current.distance + 1 }`. */
  function Entries(current: Entry, found: seq<Cell>): (r: seq<Entry>)
    ensures |r| == |found|
    ensures forall i :: 0 <= i < |found| ==>
              r[i] == Entry(found[i], current.path + [found[i]], current.distance + 1)
  {
    seq(|found|, i requires 0 <= i < |found| => Entry(found[i], current.path + [found[i]], current.distance + 1))
  }

  /** One step of the scan: the first remaining candidate is either discovered or skipped. */
  lemma DiscoverStep(maze: Maze, visited: set<Cell>, cands: seq<Cell>, k: nat)
    requires Rectangular(maze) && k < |cands|
    ensures Discover(maze, visited, cands[k..]) ==
            if IsOpen(maze, cands[k]) && cands[k] !in visited then
              [cands[k]] + Discover(maze, visited + {cands[k]}, cands[k + 1..])
            else Discover(maze, visited, cands[k + 1..])
  {
    assert cands[k..][0] == cands[k] && cands[k..][1..] == cands[k + 1..];
  }

  /** The scan's progress: with `found` discovered before candidate `k` and `seen` the visited set
      at that point, the discovered cells after candidate `k` are `found` plus it if it is fresh. */
  lemma ScanStep(maze: Maze, visited: set<Cell>, cands: seq<Cell>, k: nat, found: seq<Cell>, seen: set<Cell>)
    requires Rectangular(maze) && k < |cands|
    requires found + Discover(maze, seen, cands[k..]) == Discover(maze, visited, cands)
    ensures IsOpen(maze, cands[k]) && cands[k] !in seen ==>
              (found + [cands[k]]) + Discover(maze, seen + {cands[k]}, cands[k + 1..]) == Discover(maze, visited, cands)
    ensures !(IsOpen(maze, cands[k]) && cands[k] !in seen) ==>
              found + Discover(maze, seen, cands[k + 1..]) == Discover(maze, visited, cands)
  {
    DiscoverStep(maze, seen, cands, k);
    if IsOpen(maze, cands[k]) && cands[k] !in seen {
      var later := Discover(maze, seen + {cands[k]}, cands[k + 1..]);
      assert found + ([cands[k]] + later) == (found + [cands[k]]) + later;
    }
  }

  lemma EntriesSnoc(current: Entry, found: seq<Cell>, n: Cell)
    ensures Entries(current, found + [n]) == Entries(current, found) + [Entry(n, current.path + [n], current.distance + 1)]
    ensures Elems(found + [n]) == Elems(found) + {n}
  {
    assert Entries(current, found + [n]) == Entries(current, found) + [Entry(n, current.path + [n], current.distance + 1)];
  }

  /** The path map after a scan from a cell reached by `prefix` discovered `found`. */
  ghost function ExtendPaths(pathTo: map<Cell, seq<Cell>>, prefix: seq<Cell>, found: seq<Cell>): map<Cell, seq<Cell>>
  {
    map x | x in pathTo.Keys + Elems(found) :: if x in found then prefix + [x] else pathTo[x]
  }

  /** What the search knows of a visited cell `v`: `p` is a simple path from the start to it
      through visited cells only. */
  ghost predicate Known(maze: Maze, start: Cell, v: Cell, p: seq<Cell>, visited: set<Cell>)
    requires Rectangular(maze)
  {
    ValidPath(maze, start, p) && Last(p) == v && Within(p, visited)
  }

  /** Every visited cell, the start first, is the start or open, and is known by the path it
      was discovered by. The facts about a cell's path are drawn on only where `Known` is
      mentioned for it, which keeps paths of paths from being unfolded without end. */
  ghost predicate PathsKnown(maze: Maze, start: Cell, visited: set<Cell>, pathTo: map<Cell, seq<Cell>>)
    requires Rectangular(maze)
  {
    && pathTo.Keys == visited
    && start in visited && pathTo[start] == [start]
    && (forall v :: v in visited ==> v == start || IsOpen(maze, v))
    && (forall v {:trigger Known(maze, start, v, pathTo[v], visited)} :: v in visited ==> Known(maze, start, v, pathTo[v], visited))
  }

  /** Every frontier entry carries the path its cell was discovered by and that path's edge
      count; no cell is on the frontier twice; the visited cells are the closed ones and the
      frontier's, and none is both. */
  ghost predicate FrontierAgrees(frontier: seq<Entry>, visited: set<Cell>, closed: set<Cell>,
                                 pathTo: map<Cell, seq<Cell>>)
  {
    && pathTo.Keys == visited
    && (forall i :: 0 <= i < |frontier| ==>
          frontier[i].position in visited && frontier[i].path == pathTo[frontier[i].position] &&
          frontier[i].distance == |frontier[i].path| - 1)
    && Distinct(Positions(frontier))
    && visited == closed + Elems(Positions(frontier))
    && closed !! Elems(Positions(frontier))
  }

  /** Every open neighbour of a closed cell has been visited. */
  ghost predicate ClosedExplored(maze: Maze, closed: set<Cell>, visited: set<Cell>)
    requires Rectangular(maze)
  {
    forall u, w :: u in closed && Adjacent(u, w) && IsOpen(maze, w) ==> w in visited
  }

  /** The invariant of a search's loop. `visited` is the visited set, `frontier` the queue or
      stack, `closed` (ghost) the cells already taken off the frontier and `pathTo` (ghost) the
      path each visited cell was discovered by. */
  ghost predicate SearchState(maze: Maze, start: Cell, frontier: seq<Entry>, visited: set<Cell>,
                              closed: set<Cell>, pathTo: map<Cell, seq<Cell>>)
    requires Rectangular(maze)
  {
    PathsKnown(maze, start, visited, pathTo) && FrontierAgrees(frontier, visited, closed, pathTo) &&
    ClosedExplored(maze, closed, visited)
  }

  /** The state before the loop: the one entry `{ start, [start], 0 }`, only the start visited. */
  lemma InitialState(maze: Maze, start: Cell)
    requires Rectangular(maze)
    ensures SearchState(maze, start, [Entry(start, [start], 0)], {start}, {}, map[start := [start]])
  {
    var frontier := [Entry(start, [start], 0)];
    assert Positions(frontier) == [start];
    assert Elems([start]) == {start};
  }

  /** The frontier with entry `k` taken off. */
  function Without(frontier: seq<Entry>, k: nat): (rest: seq<Entry>)
    requires k < |frontier|
    ensures |rest| == |frontier| - 1
    ensures forall i :: 0 <= i < |rest| ==> rest[i] == if i < k then frontier[i] else frontier[i + 1]
  {
    frontier[..k] + frontier[k + 1..]
  }

  lemma PositionsWithout(frontier: seq<Entry>, k: nat)
    requires k < |frontier| && Distinct(Positions(frontier))
    ensures Distinct(Positions(Without(frontier, k)))
    ensures Elems(Positions(frontier)) == Elems(Positions(Without(frontier, k))) + {frontier[k].position}
    ensures frontier[k].position !in Elems(Positions(Without(frontier, k)))
  {
    var all := Positions(frontier);
    assert Positions(Without(frontier, k)) == all[..k] + all[k + 1..];
    DistinctRemove(all, k);
  }

  lemma PositionsAppend(rest: seq<Entry>, current: Entry, found: seq<Cell>)
    ensures Positions(rest + Entries(current, found)) == Positions(rest) + found
    ensures Elems(Positions(rest) + found) == Elems(Positions(rest)) + Elems(found)
  {
    assert Positions(rest + Entries(current, found)) == Positions(rest) + found;
  }

  /** The paths of a scan: every discovered cell and every cell visited before is known. */
  lemma KnownAfterScan(maze: Maze, start: Cell, visited: set<Cell>, pathTo: map<Cell, seq<Cell>>,
                       cur: Entry, found: seq<Cell>)
    requires Rectangular(maze)
    requires PathsKnown(maze, start, visited, pathTo)
    requires cur.position in visited && cur.path == pathTo[cur.position]
    requires forall i :: 0 <= i < |found| ==>
               IsOpen(maze, found[i]) && found[i] !in visited && Adjacent(cur.position, found[i])
    ensures PathsKnown(maze, start, visited + Elems(found), ExtendPaths(pathTo, cur.path, found))
  {
    var visited' := visited + Elems(found);
    var pathTo' := ExtendPaths(pathTo, cur.path, found);
    assert Known(maze, start, cur.position, cur.path, visited);
    forall v | v in visited' ensures Known(maze, start, v, pathTo'[v], visited') {
      if v in found {
        assert v !in cur.path;
        ExtendPath(maze, start, cur.path, v);
        assert pathTo'[v] == cur.path + [v];
      } else {
        assert pathTo'[v] == pathTo[v];
        assert Known(maze, start, v, pathTo[v], visited);
      }
    }
  }

  lemma DistinctAppend(a: seq<Cell>, b: seq<Cell>)
    requires Distinct(a) && Distinct(b) && Elems(a) !! Elems(b)
    ensures Distinct(a + b)
  {
    assert multiset(a + b) == multiset(a) + multiset(b);
    forall x | x in a + b ensures multiset(a + b)[x] == 1 {
      if x in a {
        assert x in Elems(a) && x !in multiset(b);
      } else {
        assert x in Elems(b) && x !in multiset(a);
      }
    }
  }

  /** The entries after a scan: each remaining one still agrees with the path map, and so does
      each appended one. */
  lemma EntriesAfterScan(frontier: seq<Entry>, visited: set<Cell>, pathTo: map<Cell, seq<Cell>>, k: nat,
                         found: seq<Cell>)
    requires k < |frontier|
    requires pathTo.Keys == visited
    requires forall i :: 0 <= i < |frontier| ==>
               frontier[i].position in visited && frontier[i].path == pathTo[frontier[i].position] &&
               frontier[i].distance == |frontier[i].path| - 1
    requires forall i :: 0 <= i < |found| ==> found[i] !in visited
    ensures var frontier', visited', pathTo' :=
              Without(frontier, k) + Entries(frontier[k], found), visited + Elems(found),
              ExtendPaths(pathTo, frontier[k].path, found);
      forall i :: 0 <= i < |frontier'| ==>
        frontier'[i].position in visited' && frontier'[i].path == pathTo'[frontier'[i].position] &&
        frontier'[i].distance == |frontier'[i].path| - 1
  {
    var cur := frontier[k];
    var rest := Without(frontier, k);
    var frontier' := rest + Entries(cur, found);
    var visited' := visited + Elems(found);
    var pathTo' := ExtendPaths(pathTo, cur.path, found);
    forall i | 0 <= i < |frontier'|
      ensures frontier'[i].position in visited' && frontier'[i].path == pathTo'[frontier'[i].position] &&
              frontier'[i].distance == |frontier'[i].path| - 1
    {
      if i < |rest| {
        var j := if i < k then i else i + 1;
        assert frontier'[i] == frontier[j];
        assert frontier[j].position !in found;
      } else {
        var x := found[i - |rest|];
        assert frontier'[i] == Entry(x, cur.path + [x], cur.distance + 1);
      }
    }
  }

  /** The frontier bookkeeping of a scan: taking entry `k` off, closing its cell and appending
      the discovered cells, which were not visited, keeps the frontier in agreement. */
  lemma FrontierAfterScan(frontier: seq<Entry>, visited: set<Cell>, closed: set<Cell>,
                          pathTo: map<Cell, seq<Cell>>, k: nat, found: seq<Cell>)
    requires k < |frontier|
    requires FrontierAgrees(frontier, visited, closed, pathTo)
    requires Distinct(found) && forall i :: 0 <= i < |found| ==> found[i] !in visited
    ensures frontier[k].position !in closed
    ensures FrontierAgrees(Without(frontier, k) + Entries(frontier[k], found), visited + Elems(found),
                           closed + {frontier[k].position}, ExtendPaths(pathTo, frontier[k].path, found))
  {
    var rest := Without(frontier, k);
    assert Positions(frontier)[k] == frontier[k].position;
    PositionsWithout(frontier, k);
    PositionsAppend(rest, frontier[k], found);
    DistinctAppend(Positions(rest), found);
    EntriesAfterScan(frontier, visited, pathTo, k, found);
  }

  /** After a scan from a cell whose in-bounds neighbours are all among the candidates, every
      open neighbour of a closed cell, the scanned one included, is visited. */
  lemma ClosedAfterScan(maze: Maze, visited: set<Cell>, closed: set<Cell>, cur: Cell, cands: seq<Cell>)
    requires Rectangular(maze)
    requires ClosedExplored(maze, closed, visited)
    requires forall w :: Adjacent(cur, w) && InBounds(maze, w) ==> w in cands
    ensures ClosedExplored(maze, closed + {cur}, visited + Elems(Discover(maze, visited, cands)))
  {
    DiscoverFacts(maze, visited, cands);
  }

  /** Taking entry `k` off the frontier, then scanning neighbours `cands` of its cell (every one
      of them adjacent to it, every in-bounds neighbour among them), marking and appending the
      discovered cells, keeps the search invariant; the cell taken off becomes closed. */
  lemma ExpandPreserves(maze: Maze, start: Cell, frontier: seq<Entry>, visited: set<Cell>,
                        closed: set<Cell>, pathTo: map<Cell, seq<Cell>>, k: nat, cands: seq<Cell>)
    requires Rectangular(maze)
    requires SearchState(maze, start, frontier, visited, closed, pathTo)
    requires k < |frontier|
    requires forall i :: 0 <= i < |cands| ==> Adjacent(frontier[k].position, cands[i])
    requires forall w :: Adjacent(frontier[k].position, w) && InBounds(maze, w) ==> w in cands
    ensures frontier[k].position !in closed
    ensures SearchState(maze, start, Without(frontier, k) + Entries(frontier[k], Discover(maze, visited, cands)),
                        visited + Elems(Discover(maze, visited, cands)), closed + {frontier[k].position},
                        ExtendPaths(pathTo, frontier[k].path, Discover(maze, visited, cands)))
  {
    var found := Discover(maze, visited, cands);
    DiscoverFacts(maze, visited, cands);
    KnownAfterScan(maze, start, visited, pathTo, frontier[k], found);
    FrontierAfterScan(frontier, visited, closed, pathTo, k, found);
    ClosedAfterScan(maze, visited, closed, frontier[k].position, cands);
  }

  /** Any frontier entry of a search state is in the frontier, not closed, reachable, and carries
      a simple path from the start to its cell. */
  lemma FrontReachable(maze: Maze, start: Cell, frontier: seq<Entry>, visited: set<Cell>,
                       closed: set<Cell>, pathTo: map<Cell, seq<Cell>>, k: nat)
    requires Rectangular(maze)
    requires SearchState(maze, start, frontier, visited, closed, pathTo) && k < |frontier|
    ensures var e := frontier[k];
      && e.position !in closed && e.position in visited && e.path == pathTo[e.position]
      && Known(maze, start, e.position, e.path, visited)
      && (e.position == start || IsOpen(maze, e.position))
      && e.position in Reachable(maze, start)
  {
    var e := frontier[k];
    assert Positions(frontier)[k] == e.position;
    assert Known(maze, start, e.position, pathTo[e.position], visited);
    ReachableEnd(maze, start, e.position, e.path);
  }

  /** Once the frontier is empty every visited cell is closed, so every walk from the start stays
      among them: a cell never closed is out of reach. */
  lemma ExhaustedUnreached(maze: Maze, start: Cell, end: Cell, visited: set<Cell>, closed: set<Cell>,
                           pathTo: map<Cell, seq<Cell>>)
    requires Rectangular(maze)
    requires SearchState(maze, start, [], visited, closed, pathTo) && end !in closed
    ensures Unreached(maze, start, end)
  {
    assert visited == closed;
    forall p | Walk(maze, start, p) ensures Last(p) != end {
      WalkStaysInside(maze, start, closed, p);
    }
  }

  /** Closing one more cell of `cells` leaves one fewer of them open. */
  lemma CloseOne(cells: set<Cell>, closed: set<Cell>, c: Cell)
    requires c in cells && c !in closed
    ensures |cells - (closed + {c})| == |cells - closed| - 1 >= 0
  {
    assert cells - (closed + {c}) == (cells - closed) - {c};
  }
}
