/** The grid, move rules and heuristic of the ideal travel-time `Pathfinder` (travel_time.py). */
module Pathfinding {
  import opened Coords

  /** A `Pathfinder`: its `grid` with the shape `(xLim, yLim)`, read as `cells[x][y]` with 0
      walkable, and its `illegalMoves` table. */
  datatype Grid = Grid(cells: seq<seq<int>>, xLim: nat, yLim: nat, illegal: map<Coord, Coord>) {
    /** A rectangular array of the recorded shape, as `np.shape` reports it. */
    ghost predicate Valid() {
      |cells| == xLim && forall x | 0 <= x < xLim :: |cells[x]| == yLim
    }
  }

  /** `illegalMoves`: adjacent cell pairs with no direct move between them, in both directions. */
  const IllegalMoves: map<Coord, Coord> := map[
    Coord(2, 0) := Coord(3, 0), Coord(3, 0) := Coord(2, 0),
    Coord(0, 2) := Coord(0, 3), Coord(0, 3) := Coord(0, 2),
    Coord(1, 2) := Coord(1, 3), Coord(1, 3) := Coord(1, 2),
    Coord(2, 2) := Coord(2, 3), Coord(2, 3) := Coord(2, 2),
    Coord(0, 17) := Coord(0, 18), Coord(0, 18) := Coord(0, 17),
    Coord(1, 17) := Coord(1, 18), Coord(1, 18) := Coord(1, 17),
    Coord(2, 17) := Coord(2, 18), Coord(2, 18) := Coord(2, 17)]

  /** The partner of a listed cell is listed. */
  lemma IllegalMovesClosed()
    ensures forall a | a in IllegalMoves :: IllegalMoves[a] in IllegalMoves
  {
  }

  /** The table is symmetric: a listed cell's partner is listed, with the cell as its partner. */
  lemma IllegalMovesSymmetric()
    ensures forall a | a in IllegalMoves :: IllegalMoves[IllegalMoves[a]] == a
  {
  }

  /** Every listed pair is orthogonally adjacent. */
  lemma IllegalMovesAdjacent()
    ensures forall a | a in IllegalMoves :: Abs(a.x - IllegalMoves[a].x) + Abs(a.y - IllegalMoves[a].y) == 1
  {
  }

  /** `Pathfinder(grid)`: the shape is read off the grid and the table is `IllegalMoves`. */
  function NewPathfinder(cells: seq<seq<int>>): (g: Grid)
    requires forall x | 0 <= x < |cells| :: |cells[x]| == |cells[0]|
    ensures g.Valid() && g.illegal == IllegalMoves
    ensures g.xLim == |cells| && (|cells| > 0 ==> g.yLim == |cells[0]|)
  {
    Grid(cells, |cells|, if |cells| == 0 then 0 else |cells[0]|, IllegalMoves)
  }

  /** The move `a -> b` is one of the table's forbidden moves. */
  predicate Forbidden(g: Grid, a: Coord, b: Coord) {
    a in g.illegal && g.illegal[a] == b
  }

  const XTranslation: seq<int> := [-1, 0, 1, 1, 1, 0, -1, -1]
  const YTranslation: seq<int> := [-1, -1, -1, 0, 1, 1, 1, 0]

  /** The `i`-th of the eight candidate neighbours `search` examines. */
  function Neighbour(cell: Coord, i: nat): Coord
    requires i < 8
  {
    Coord(cell.x + XTranslation[i], cell.y + YTranslation[i])
  }

  /** `b` is one king move from `a`. */
  predicate KingAdjacent(a: Coord, b: Coord) {
    a != b && -1 <= a.x - b.x <= 1 && -1 <= a.y - b.y <= 1
  }

  /** The eight translations are exactly the king moves. */
  lemma NeighboursAreKingMoves(a: Coord, b: Coord)
    ensures KingAdjacent(a, b) <==> exists i :: 0 <= i < 8 && Neighbour(a, i) == b
  {
    if KingAdjacent(a, b) {
      var dx, dy := b.x - a.x, b.y - a.y;
      var i := if dx == -1 && dy == -1 then 0 else if dx == 0 && dy == -1 then 1
        else if dx == 1 && dy == -1 then 2 else if dx == 1 && dy == 0 then 3
        else if dx == 1 && dy == 1 then 4 else if dx == 0 && dy == 1 then 5
        else if dx == -1 && dy == 1 then 6 else 7;
      assert Neighbour(a, i) == b;
    }
  }

  predicate InBounds(g: Grid, c: Coord) {
    0 <= c.x < g.xLim && 0 <= c.y < g.yLim
  }

  /** `isMoveValid(visited, cell, neighbour)`. */
  predicate IsMoveValid(g: Grid, visited: set<Coord>, cell: Coord, nb: Coord)
    requires g.Valid()
  {
    if cell in g.illegal then
      InBounds(g, nb) && g.cells[nb.x][nb.y] == 0 && g.illegal[cell] != nb && nb !in visited
    else
      InBounds(g, nb) && g.cells[nb.x][nb.y] == 0 && nb !in visited
  }

  /** A move of the unobstructed network: a king move onto a walkable cell inside the grid that the table does not forbid. */
  ghost predicate Step(g: Grid, a: Coord, b: Coord)
    requires g.Valid()
  {
    KingAdjacent(a, b) && InBounds(g, b) && g.cells[b.x][b.y] == 0 && !Forbidden(g, a, b)
  }

  /** `isMoveValid` rejects a neighbour exactly when it is out of bounds, not walkable, already
      visited, or the forbidden partner of `cell`; for a candidate neighbour that is the same as a
      move of the network onto an unvisited cell. */
  lemma IsMoveValidIsStep(g: Grid, visited: set<Coord>, cell: Coord, i: nat)
    requires g.Valid() && i < 8
    ensures var nb := Neighbour(cell, i);
      IsMoveValid(g, visited, cell, nb) <==>
        InBounds(g, nb) && g.cells[nb.x][nb.y] == 0 && nb !in visited && !Forbidden(g, cell, nb)
    ensures IsMoveValid(g, visited, cell, Neighbour(cell, i)) <==>
      Step(g, cell, Neighbour(cell, i)) && Neighbour(cell, i) !in visited
  {
  }

  const D: int := 1
  const D2: int := 1

  /** `heuristic`: the diagonal distance with unit costs. */
  function Heuristic(cell: Coord, goal: Coord): int {
    var dx := Abs(cell.x - goal.x);
    var dy := Abs(cell.y - goal.y);
    D * (dx + dy) + (D2 - 2 * D) * Min(dx, dy)
  }

  /** With unit costs the diagonal distance is the larger coordinate difference: never negative,
      and zero exactly at the goal. */
  lemma HeuristicIsChebyshev(cell: Coord, goal: Coord)
    ensures Heuristic(cell, goal) == Max(Abs(cell.x - goal.x), Abs(cell.y - goal.y))
    ensures Heuristic(cell, goal) >= 0
    ensures Heuristic(cell, goal) == 0 <==> cell == goal
  {
  }

  /** The heuristic changes by at most one per king move. */
  lemma HeuristicConsistent(a: Coord, b: Coord, goal: Coord)
    requires KingAdjacent(a, b)
    ensures Heuristic(a, goal) <= Heuristic(b, goal) + 1
  {
    HeuristicIsChebyshev(a, goal);
    HeuristicIsChebyshev(b, goal);
  }

  /** A sequence of network moves from `a` to `b`; it takes `|p| - 1` moves. */
  ghost predicate PathFromTo(g: Grid, p: seq<Coord>, a: Coord, b: Coord)
    requires g.Valid()
  {
    && |p| >= 1 && p[0] == a && p[|p| - 1] == b
    && forall k | 0 <= k < |p| - 1 :: Step(g, p[k], p[k + 1])
  }

  /** The heuristic never overestimates: along any path it falls by at most the number of moves. */
  lemma {:induction false} HeuristicAdmissible(g: Grid, p: seq<Coord>, a: Coord, b: Coord, goal: Coord)
    requires g.Valid() && PathFromTo(g, p, a, b)
    ensures Heuristic(a, goal) <= |p| - 1 + Heuristic(b, goal)
    ensures b == goal ==> Heuristic(a, goal) <= |p| - 1
    decreases |p|
  {
    HeuristicIsChebyshev(b, goal);
    if |p| > 1 {
      assert PathFromTo(g, p[1..], p[1], b) by {
        forall k | 0 <= k < |p[1..]| - 1 ensures Step(g, p[1..][k], p[1..][k + 1]) {
          assert Step(g, p[k + 1], p[k + 2]);
        }
      }
      HeuristicAdmissible(g, p[1..], p[1], b, goal);
      assert Step(g, p[0], p[1]);
      HeuristicConsistent(a, p[1], goal);
    }
  }
}
