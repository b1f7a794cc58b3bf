/** `Pathfinder.search` (travel_time.py): A* over the grid with a closed set and a fringe
    ordered by `(f, g, cell)`, proved to return the length of a shortest path, or `None`
    exactly when the goal cannot be reached. */
module AStar {
  import opened Coords
  import opened Wrappers
  import opened Pathfinding

  /** A fringe tuple `(f, g, cell)`: priority, moves so far, and the cell reached. */
  datatype Entry = Entry(f: int, g: nat, cell: Coord)

  /** Python's tuple order on `(f, g, (x, y))`, which `heappop` follows. */
  predicate EntryLess(a: Entry, b: Entry) {
    || a.f < b.f
    || (a.f == b.f && a.g < b.g)
    || (a.f == b.f && a.g == b.g && CoordLess(a.cell, b.cell))
  }

  /** The position `heappop` takes the entry from: one no other entry is less than. */
  function MinIndex(fringe: seq<Entry>): (m: nat)
    requires |fringe| > 0
    ensures m < |fringe|
    ensures forall j | 0 <= j < |fringe| :: !EntryLess(fringe[j], fringe[m])
  {
    if |fringe| == 1 then 0
    else
      var m := MinIndex(fringe[1..]);
      assert forall j | 1 <= j < |fringe| :: fringe[j] == fringe[1..][j - 1];
      if EntryLess(fringe[1 + m], fringe[0]) then 1 + m else 0
  }

  function Remove<T>(s: seq<T>, m: nat): (r: seq<T>)
    requires m < |s|
    ensures |r| == |s| - 1
    ensures forall j | 0 <= j < m :: r[j] == s[j]
    ensures forall j | m <= j < |r| :: r[j] == s[j + 1]
  {
    s[..m] + s[m + 1..]
  }

  /** The entries the loop over the eight translations pushes for `cell`, from translation `i` on. */
  function Pushes(g: Grid, visited: set<Coord>, cell: Coord, cost: nat, goal: Coord, i: nat): (r: seq<Entry>)
    requires g.Valid() && i <= 8
    ensures forall j | 0 <= j < |r| ::
      && r[j].g == cost + 1 && r[j].f == cost + Heuristic(r[j].cell, goal)
      && Step(g, cell, r[j].cell) && r[j].cell !in visited
    ensures forall k | i <= k < 8 && IsMoveValid(g, visited, cell, Neighbour(cell, k)) ::
      exists j :: 0 <= j < |r| && r[j].cell == Neighbour(cell, k)
    decreases 8 - i
  {
    if i == 8 then []
    else
      var nb := Neighbour(cell, i);
      IsMoveValidIsStep(g, visited, cell, i);
      var rest := Pushes(g, visited, cell, cost, goal, i + 1);
      if IsMoveValid(g, visited, cell, nb) then
        var r := [Entry(cost + Heuristic(nb, goal), cost + 1, nb)] + rest;
        assert forall j | 0 <= j < |rest| :: r[j + 1] == rest[j];
        assert r[0].cell == Neighbour(cell, i);
        r
      else rest
  }

  /** The witness paths of pushed entries: the popped entry's path extended by the neighbour. */
  ghost function PushPaths(base: seq<Coord>, pushes: seq<Entry>): (ps: seq<seq<Coord>>)
    ensures |ps| == |pushes|
    ensures forall j | 0 <= j < |pushes| :: ps[j] == base + [pushes[j].cell]
  {
    seq(|pushes|, j requires 0 <= j < |pushes| => base + [pushes[j].cell])
  }

  // ---------------------------------------------------------------------------------------
  // The search invariant

  /** The priority of an entry: the start's is its heuristic; a pushed entry's is its parent's
      cost plus the heuristic of its cell, i.e. `g - 1 + h`. */
  ghost predicate Valued(e: Entry, start: Coord, goal: Coord) {
    if e.g == 0 then e.cell == start && e.f == Heuristic(start, goal)
    else e.f == e.g - 1 + Heuristic(e.cell, goal)
  }

  /** Every fringe entry is reached from the start by a path of exactly `g` moves. */
  ghost predicate FringeSound(g: Grid, start: Coord, goal: Coord, fringe: seq<Entry>, paths: seq<seq<Coord>>)
    requires g.Valid()
  {
    && |paths| == |fringe|
    && forall i | 0 <= i < |fringe| ::
         PathFromTo(g, paths[i], start, fringe[i].cell) && |paths[i]| == fringe[i].g + 1 && Valued(fringe[i], start, goal)
  }

  /** Some fringe entry reaches `n` with at most `bound` moves. */
  ghost predicate Listed(fringe: seq<Entry>, n: Coord, bound: int) {
    exists i :: 0 <= i < |fringe| && fringe[i].cell == n && fringe[i].g <= bound
  }

  /** Each move out of an expanded cell leads to an expanded cell or to a fringe entry no
      costlier than through that cell. */
  ghost predicate FrontierClosed(g: Grid, fringe: seq<Entry>, closed: map<Coord, nat>)
    requires g.Valid()
  {
    forall v, n | v in closed && Step(g, v, n) :: n in closed || Listed(fringe, n, closed[v] + 1)
  }

  /** Every expanded cell was expanded with the least number of moves that reaches it. */
  ghost predicate ClosedOptimal(g: Grid, start: Coord, closed: map<Coord, nat>)
    requires g.Valid()
  {
    forall v, p | v in closed && PathFromTo(g, p, start, v) :: closed[v] <= |p| - 1
  }

  /** The search state: fringe, witness paths, and the expanded cells with their costs. */
  ghost predicate SearchInv(g: Grid, start: Coord, goal: Coord, fringe: seq<Entry>, paths: seq<seq<Coord>>,
                            closed: map<Coord, nat>)
    requires g.Valid()
  {
    && FringeSound(g, start, goal, fringe, paths)
    && FrontierClosed(g, fringe, closed)
    && ClosedOptimal(g, start, closed)
    && goal !in closed
    && (start in closed || (closed == map[] && fringe == [Entry(Heuristic(start, goal), 0, start)]))
  }

  /** A path from an expanded cell to one that is not leaves the expanded cells at some move. */
  lemma {:induction false} LeavesClosed(p: seq<Coord>, closed: map<Coord, nat>) returns (k: nat)
    requires |p| >= 1 && p[0] in closed && p[|p| - 1] !in closed
    ensures 0 < k < |p| && p[k - 1] in closed && p[k] !in closed
    decreases |p|
  {
    if p[1] !in closed {
      k := 1;
    } else {
      var k' := LeavesClosed(p[1..], closed);
      k := k' + 1;
    }
  }

  lemma PrefixPath(g: Grid, p: seq<Coord>, a: Coord, b: Coord, k: nat)
    requires g.Valid() && PathFromTo(g, p, a, b) && 0 < k <= |p|
    ensures PathFromTo(g, p[..k], a, p[k - 1])
  {
    forall j | 0 <= j < k - 1 ensures Step(g, p[..k][j], p[..k][j + 1]) {
      assert Step(g, p[j], p[j + 1]);
    }
  }

  lemma SuffixPath(g: Grid, p: seq<Coord>, a: Coord, b: Coord, k: nat)
    requires g.Valid() && PathFromTo(g, p, a, b) && 0 <= k < |p|
    ensures PathFromTo(g, p[k..], p[k], b)
  {
    forall j | 0 <= j < |p| - k - 1 ensures Step(g, p[k..][j], p[k..][j + 1]) {
      assert Step(g, p[k + j], p[k + j + 1]);
    }
  }

  /** Any path from the (expanded) start to a cell that is not expanded passes a fringe entry
      whose priority is at most the path's moves minus one plus the cell's heuristic. */
  lemma Frontier(g: Grid, start: Coord, goal: Coord, fringe: seq<Entry>, paths: seq<seq<Coord>>,
                 closed: map<Coord, nat>, p: seq<Coord>, t: Coord)
    requires g.Valid() && SearchInv(g, start, goal, fringe, paths, closed) && start in closed
    requires PathFromTo(g, p, start, t) && t !in closed
    ensures exists i :: 0 <= i < |fringe| && fringe[i].f <= |p| - 2 + Heuristic(t, goal)
  {
    var k := LeavesClosed(p, closed);
    PrefixPath(g, p, start, t, k);
    assert closed[p[k - 1]] <= k - 1;
    assert Step(g, p[k - 1], p[k]);
    assert Listed(fringe, p[k], closed[p[k - 1]] + 1);
    var i :| 0 <= i < |fringe| && fringe[i].cell == p[k] && fringe[i].g <= closed[p[k - 1]] + 1;
    assert Valued(fringe[i], start, goal);
    SuffixPath(g, p, start, t, k);
    HeuristicAdmissible(g, p[k..], p[k], t, goal);
  }

  /** The entry `heappop` returns, if not yet expanded, carries the least number of moves to its cell. */
  lemma PopOptimal(g: Grid, start: Coord, goal: Coord, fringe: seq<Entry>, paths: seq<seq<Coord>>,
                   closed: map<Coord, nat>)
    requires g.Valid() && SearchInv(g, start, goal, fringe, paths, closed) && |fringe| > 0
    requires fringe[MinIndex(fringe)].cell !in closed
    ensures var e := fringe[MinIndex(fringe)];
      forall p | PathFromTo(g, p, start, e.cell) :: e.g <= |p| - 1
  {
    var m := MinIndex(fringe);
    var e := fringe[m];
    forall p | PathFromTo(g, p, start, e.cell) ensures e.g <= |p| - 1 {
      if start in closed {
        Frontier(g, start, goal, fringe, paths, closed, p, e.cell);
        var i :| 0 <= i < |fringe| && fringe[i].f <= |p| - 2 + Heuristic(e.cell, goal);
        assert !EntryLess(fringe[i], e);
        assert Valued(e, start, goal);
      }
    }
  }

  /** Popping the goal ends the search with the least number of moves to it. */
  lemma GoalFound(g: Grid, start: Coord, goal: Coord, fringe: seq<Entry>, paths: seq<seq<Coord>>,
                  closed: map<Coord, nat>)
    requires g.Valid() && SearchInv(g, start, goal, fringe, paths, closed) && |fringe| > 0
    requires fringe[MinIndex(fringe)].cell == goal
    ensures var e := fringe[MinIndex(fringe)];
      && (start == goal ==> e.g == 0)
      && (exists p :: PathFromTo(g, p, start, goal) && |p| - 1 == e.g)
      && (forall p | PathFromTo(g, p, start, goal) :: e.g <= |p| - 1)
  {
    var m := MinIndex(fringe);
    PopOptimal(g, start, goal, fringe, paths, closed);
    assert PathFromTo(g, paths[m], start, goal);
    assert start == goal ==> PathFromTo(g, [start], start, goal);
  }

  /** Popping an entry whose cell is already expanded keeps the invariant. */
  lemma SkipPreserves(g: Grid, start: Coord, goal: Coord, fringe: seq<Entry>, paths: seq<seq<Coord>>,
                      closed: map<Coord, nat>)
    requires g.Valid() && SearchInv(g, start, goal, fringe, paths, closed) && |fringe| > 0
    requires fringe[MinIndex(fringe)].cell in closed
    ensures SearchInv(g, start, goal, Remove(fringe, MinIndex(fringe)), Remove(paths, MinIndex(fringe)), closed)
  {
    var m := MinIndex(fringe);
    var fr := Remove(fringe, m);
    assert start in closed;
    forall v, n | v in closed && Step(g, v, n) && n !in closed ensures Listed(fr, n, closed[v] + 1) {
      var i :| 0 <= i < |fringe| && fringe[i].cell == n && fringe[i].g <= closed[v] + 1;
      assert i != m;
      if i < m {
        assert fr[i] == fringe[i];
      } else {
        assert fr[i - 1] == fringe[i];
      }
    }
  }

  /** The fringe after expanding the entry at `m`: the other entries, then the pushed ones. */
  function Expanded<T>(fringe: seq<T>, m: nat, pushes: seq<T>): (fr: seq<T>)
    requires m < |fringe|
    ensures |fr| == |fringe| - 1 + |pushes|
    ensures forall i | 0 <= i < m :: fr[i] == fringe[i]
    ensures forall i | m < i < |fringe| :: fr[i - 1] == fringe[i]
    ensures forall i | |fringe| - 1 <= i < |fr| :: fr[i] == pushes[i - (|fringe| - 1)]
  {
    Remove(fringe, m) + pushes
  }

  /** The pushed entries are reached by the popped entry's path plus one move. */
  lemma ExpandSound(g: Grid, start: Coord, goal: Coord, fringe: seq<Entry>, paths: seq<seq<Coord>>,
                    m: nat, pushes: seq<Entry>)
    requires g.Valid() && FringeSound(g, start, goal, fringe, paths) && m < |fringe|
    requires forall j | 0 <= j < |pushes| ::
      && pushes[j].g == fringe[m].g + 1 && pushes[j].f == fringe[m].g + Heuristic(pushes[j].cell, goal)
      && Step(g, fringe[m].cell, pushes[j].cell)
    ensures FringeSound(g, start, goal, Expanded(fringe, m, pushes), Expanded(paths, m, PushPaths(paths[m], pushes)))
  {
    var fr := Expanded(fringe, m, pushes);
    var ps := Expanded(paths, m, PushPaths(paths[m], pushes));
    var u := fringe[m].cell;
    var n := |fringe| - 1;
    forall i | 0 <= i < n
      ensures PathFromTo(g, ps[i], start, fr[i].cell) && |ps[i]| == fr[i].g + 1 && Valued(fr[i], start, goal)
    {
      if m <= i {
        assert fr[i] == fringe[i + 1] && ps[i] == paths[i + 1];
      }
    }
    forall i | n <= i < |fr|
      ensures PathFromTo(g, ps[i], start, fr[i].cell) && |ps[i]| == fr[i].g + 1 && Valued(fr[i], start, goal)
    {
      ExtendPath(g, paths[m], start, u, pushes[i - n].cell);
    }
  }

  /** A path to `u` followed by a move from `u` to `n` is a path to `n`. */
  lemma ExtendPath(g: Grid, p: seq<Coord>, a: Coord, u: Coord, n: Coord)
    requires g.Valid() && PathFromTo(g, p, a, u) && Step(g, u, n)
    ensures PathFromTo(g, p + [n], a, n)
  {
    var q := p + [n];
    forall k | 0 <= k < |q| - 1 ensures Step(g, q[k], q[k + 1]) {
      if k < |p| - 1 {
        assert q[k] == p[k] && q[k + 1] == p[k + 1];
      }
    }
  }

  /** Moves out of the expanded cells, now including `u`, still lead to expanded cells or to
      fringe entries. */
  lemma ExpandClosed(g: Grid, fringe: seq<Entry>, closed: map<Coord, nat>, m: nat, pushes: seq<Entry>)
    requires g.Valid() && FrontierClosed(g, fringe, closed) && m < |fringe|
    requires fringe[m].cell !in closed
    requires forall j | 0 <= j < |pushes| :: pushes[j].g == fringe[m].g + 1
    requires forall k | 0 <= k < 8 && IsMoveValid(g, closed.Keys + {fringe[m].cell}, fringe[m].cell, Neighbour(fringe[m].cell, k)) ::
      exists j :: 0 <= j < |pushes| && pushes[j].cell == Neighbour(fringe[m].cell, k)
    ensures FrontierClosed(g, Expanded(fringe, m, pushes), closed[fringe[m].cell := fringe[m].g])
  {
    var u := fringe[m].cell;
    var fr := Expanded(fringe, m, pushes);
    var cl := closed[u := fringe[m].g];
    forall v, n | v in cl && Step(g, v, n) && n !in cl ensures Listed(fr, n, cl[v] + 1) {
      if v == u {
        NeighboursAreKingMoves(u, n);
        var k :| 0 <= k < 8 && Neighbour(u, k) == n;
        IsMoveValidIsStep(g, closed.Keys + {u}, u, k);
        var j :| 0 <= j < |pushes| && pushes[j].cell == n;
        assert fr[|fringe| - 1 + j] == pushes[j];
      } else {
        var i :| 0 <= i < |fringe| && fringe[i].cell == n && fringe[i].g <= closed[v] + 1;
        assert i != m;
        if i < m {
          assert fr[i] == fringe[i];
        } else {
          assert fr[i - 1] == fringe[i];
        }
      }
    }
  }

  /** Expanding the popped entry keeps the invariant: its cell joins the expanded cells with its
      cost, and its valid neighbours join the fringe. */
  lemma ExpandPreserves(g: Grid, start: Coord, goal: Coord, fringe: seq<Entry>, paths: seq<seq<Coord>>,
                        closed: map<Coord, nat>, visited: set<Coord>)
    requires g.Valid() && SearchInv(g, start, goal, fringe, paths, closed) && |fringe| > 0
    requires visited == closed.Keys
    requires fringe[MinIndex(fringe)].cell !in closed && fringe[MinIndex(fringe)].cell != goal
    ensures var m := MinIndex(fringe);
      var e := fringe[m];
      var pushes := Pushes(g, visited + {e.cell}, e.cell, e.g, goal, 0);
      SearchInv(g, start, goal, Expanded(fringe, m, pushes), Expanded(paths, m, PushPaths(paths[m], pushes)),
                closed[e.cell := e.g])
  {
    var m := MinIndex(fringe);
    var e := fringe[m];
    var pushes := Pushes(g, visited + {e.cell}, e.cell, e.g, goal, 0);
    ExpandSound(g, start, goal, fringe, paths, m, pushes);
    ExpandClosed(g, fringe, closed, m, pushes);
    PopOptimal(g, start, goal, fringe, paths, closed);
    var cl := closed[e.cell := e.g];
    assert ClosedOptimal(g, start, cl);
    assert start in cl by {
      if start !in closed {
        assert fringe == [Entry(Heuristic(start, goal), 0, start)];
      }
    }
  }

  /** An empty fringe means every cell reachable from the start has been expanded, and the
      goal never is: no path reaches it. */
  lemma ExhaustedUnreachable(g: Grid, start: Coord, goal: Coord, paths: seq<seq<Coord>>, closed: map<Coord, nat>)
    requires g.Valid() && SearchInv(g, start, goal, [], paths, closed)
    ensures forall p :: !PathFromTo(g, p, start, goal)
  {
    forall p | PathFromTo(g, p, start, goal) ensures false {
      Frontier(g, start, goal, [], paths, closed, p, goal);
    }
  }

  /** The cells `search` can ever hold: the grid's cells and the start. */
  ghost function Universe(g: Grid, start: Coord): set<Coord> {
    (set x: int, y: int | 0 <= x < g.xLim && 0 <= y < g.yLim :: Coord(x, y)) + {start}
  }

  /** Entries the search can hold stay within `Universe`, so expansions are bounded. */
  lemma ExpandedInUniverse(g: Grid, start: Coord, fringe: seq<Entry>, m: nat, u: Coord, pushes: seq<Entry>)
    requires g.Valid() && m < |fringe|
    requires forall i | 0 <= i < |fringe| :: fringe[i].cell in Universe(g, start)
    requires forall j | 0 <= j < |pushes| :: Step(g, u, pushes[j].cell)
    ensures forall i | 0 <= i < |fringe| - 1 + |pushes| :: Expanded(fringe, m, pushes)[i].cell in Universe(g, start)
  {
    var fr := Expanded(fringe, m, pushes);
    forall i | 0 <= i < |fr| ensures fr[i].cell in Universe(g, start) {
      if i >= |fringe| - 1 {
        var c := pushes[i - (|fringe| - 1)].cell;
        assert Step(g, u, c);
        assert c == Coord(c.x, c.y);
      } else if i >= m {
        assert fr[i] == fringe[i + 1];
      }
    }
  }

  /** The loop invariant of `search`: the search invariant, with `visited` the expanded cells
      and every cell within `Universe`. */
  ghost predicate LoopInv(g: Grid, start: Coord, goal: Coord, fringe: seq<Entry>, paths: seq<seq<Coord>>,
                          closed: map<Coord, nat>, visited: set<Coord>)
    requires g.Valid()
  {
    && SearchInv(g, start, goal, fringe, paths, closed)
    && visited == closed.Keys
    && visited <= Universe(g, start)
    && forall i | 0 <= i < |fringe| :: fringe[i].cell in Universe(g, start)
  }

  /** One iteration that pops an already expanded cell keeps the loop invariant. */
  lemma SkipStep(g: Grid, start: Coord, goal: Coord, fringe: seq<Entry>, paths: seq<seq<Coord>>,
                 closed: map<Coord, nat>, visited: set<Coord>)
    requires g.Valid() && LoopInv(g, start, goal, fringe, paths, closed, visited) && |fringe| > 0
    requires fringe[MinIndex(fringe)].cell in visited
    ensures LoopInv(g, start, goal, Remove(fringe, MinIndex(fringe)), Remove(paths, MinIndex(fringe)), closed, visited)
  {
    var m := MinIndex(fringe);
    SkipPreserves(g, start, goal, fringe, paths, closed);
    assert forall i | m <= i < |fringe| - 1 :: Remove(fringe, m)[i] == fringe[i + 1];
  }

  /** Expanding `u` keeps every cell within `Universe` and leaves one cell fewer unexpanded. */
  lemma UniverseStep(g: Grid, start: Coord, fringe: seq<Entry>, m: nat, visited: set<Coord>, u: Coord,
                     pushes: seq<Entry>)
    requires g.Valid() && m < |fringe| && fringe[m].cell == u && u !in visited
    requires visited <= Universe(g, start)
    requires forall i | 0 <= i < |fringe| :: fringe[i].cell in Universe(g, start)
    requires forall j | 0 <= j < |pushes| :: Step(g, u, pushes[j].cell)
    ensures visited + {u} <= Universe(g, start)
    ensures forall i | 0 <= i < |fringe| - 1 + |pushes| :: Expanded(fringe, m, pushes)[i].cell in Universe(g, start)
    ensures |Universe(g, start) - (visited + {u})| < |Universe(g, start) - visited|
  {
    ExpandedInUniverse(g, start, fringe, m, u, pushes);
    var universe := Universe(g, start);
    assert universe - visited == (universe - (visited + {u})) + {u};
  }

  /** `search(start, goal)`: the least number of moves from `start` to `goal`, or `None` when no
      sequence of moves reaches `goal`. `search(s, s)` is 0. */
  method Search(g: Grid, start: Coord, goal: Coord) returns (r: Option<nat>)
    requires g.Valid()
    ensures start == goal ==> r == Some(0)
    ensures r.Some? ==> exists p :: PathFromTo(g, p, start, goal) && |p| - 1 == r.value
    ensures r.Some? ==> forall p | PathFromTo(g, p, start, goal) :: r.value <= |p| - 1
    ensures r.None? <==> forall p :: !PathFromTo(g, p, start, goal)
  {
    var fringe := [Entry(0 + Heuristic(start, goal), 0, start)];
    var visited: set<Coord> := {};
    ghost var closed: map<Coord, nat> := map[];
    ghost var paths: seq<seq<Coord>> := [[start]];
    while |fringe| > 0
      invariant LoopInv(g, start, goal, fringe, paths, closed, visited)
      decreases |Universe(g, start) - visited|, |fringe|
    {
      var m := MinIndex(fringe);
      var e := fringe[m];
      if e.cell == goal {
        GoalFound(g, start, goal, fringe, paths, closed);
        return Some(e.g);
      }
      if e.cell in visited {
        SkipStep(g, start, goal, fringe, paths, closed, visited);
        fringe := Remove(fringe, m);
        paths := Remove(paths, m);
      } else {
        var pushes := Pushes(g, visited + {e.cell}, e.cell, e.g, goal, 0);
        ExpandPreserves(g, start, goal, fringe, paths, closed, visited);
        UniverseStep(g, start, fringe, m, visited, e.cell, pushes);
        visited := visited + {e.cell};
        paths := Expanded(paths, m, PushPaths(paths[m], pushes));
        closed := closed[e.cell := e.g];
        fringe := Expanded(fringe, m, pushes);
      }
    }
    ExhaustedUnreachable(g, start, goal, paths, closed);
    return None;
  }
}
