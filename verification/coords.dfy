/** Grid coordinates shared by every component (`Coord` in util.py, `(x, y)` tuples elsewhere). */
module Coords {

  datatype Coord = Coord(x: int, y: int)

  /** Python's tuple order on `(x, y)`: first by x, then by y. */
  predicate CoordLess(a: Coord, b: Coord) {
    a.x < b.x || (a.x == b.x && a.y < b.y)
  }

  function Abs(n: int): (r: nat)
    ensures r == n || r == -n
  {
    if n < 0 then -n else n
  }

  function Min(a: int, b: int): (r: int)
    ensures r <= a && r <= b && (r == a || r == b)
  {
    if a <= b then a else b
  }

  function Max(a: int, b: int): (r: int)
    ensures r >= a && r >= b && (r == a || r == b)
  {
    if a >= b then a else b
  }
}
