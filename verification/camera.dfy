/** One pass of `Camera.run` (camera.py): the floormap overlay that marks the people of the
    current frame and restores the cells the previous frame marked. */
module Camera {
  import opened Coords
  import opened Wrappers

  /** A floormap, read as `m[x][y]`. */
  type Floormap = seq<seq<int>>

  /** The value written where a person stands. */
  const PersonMark: int := 5

  /** Two floormaps of the same shape. */
  predicate SameShape(a: Floormap, b: Floormap) {
    |a| == |b| && forall x | 0 <= x < |a| :: |a[x]| == |b[x]|
  }

  /** `m[c.x, c.y]` names a cell of `m`. */
  predicate InMap(m: Floormap, c: Coord) {
    0 <= c.x < |m| && 0 <= c.y < |m[c.x]|
  }

  /** Every coordinate of `cs` names a cell of `m`. */
  predicate AllInMap(m: Floormap, cs: seq<Coord>) {
    forall i | 0 <= i < |cs| :: InMap(m, cs[i])
  }

  /** The camera's state: `emptyFloormap`, `floormap` and `prevListOfCoords`. */
  datatype CameraState = CameraState(empty: Floormap, floor: Floormap, prev: Option<seq<Coord>>)

  /** The overlay the camera keeps: the floormap is the empty floormap with the previous frame's
      people marked (nothing marked before the first frame). */
  ghost predicate Overlay(st: CameraState) {
    && SameShape(st.empty, st.floor)
    && (st.prev.Some? ==> AllInMap(st.floor, st.prev.value))
    && forall x, y | 0 <= x < |st.floor| && 0 <= y < |st.floor[x]| ::
         st.floor[x][y] == if st.prev.Some? && Coord(x, y) in st.prev.value then PersonMark else st.empty[x][y]
  }

  /** `Camera(floormap, …)`: both maps start as copies of `floormap`, and no frame has been seen. */
  function NewCamera(floormap: Floormap): (st: CameraState)
    ensures Overlay(st) && st.empty == floormap && st.prev.None?
  {
    CameraState(floormap, floormap, None)
  }

  /** `m[c.x, c.y] = v`. */
  function Put(m: Floormap, c: Coord, v: int): (r: Floormap)
    requires InMap(m, c)
    ensures SameShape(r, m)
    ensures forall x, y | 0 <= x < |r| && 0 <= y < |r[x]| :: r[x][y] == if Coord(x, y) == c then v else m[x][y]
  {
    m[c.x := m[c.x][c.y := v]]
  }

  /** One iteration of the run loop for the frame `coords`: restore the previous frame's cells
      from the empty floormap, mark the current frame's cells, remember the frame, and emit a copy
      of the floormap. A cell of the current frame reads 5; a cell only the previous frame held
      reads as in the empty floormap; every other cell is unchanged. */
  method Tick(st: CameraState, coords: seq<Coord>) returns (next: CameraState, frame: Floormap)
    requires SameShape(st.empty, st.floor)
    requires AllInMap(st.floor, coords)
    requires st.prev.Some? ==> AllInMap(st.floor, st.prev.value)
    ensures SameShape(frame, st.floor) && frame == next.floor
    ensures next.empty == st.empty && next.prev == Some(coords)
    ensures forall x, y | 0 <= x < |frame| && 0 <= y < |frame[x]| ::
      frame[x][y] == if Coord(x, y) in coords then PersonMark
                     else if st.prev.Some? && Coord(x, y) in st.prev.value then st.empty[x][y]
                     else st.floor[x][y]
    ensures Overlay(st) ==> Overlay(next)
  {
    var floor := st.floor;
    if st.prev.Some? {
      var ps := st.prev.value;
      var i := 0;
      while i < |ps|
        invariant 0 <= i <= |ps|
        invariant SameShape(floor, st.floor)
        invariant forall x, y | 0 <= x < |floor| && 0 <= y < |floor[x]| ::
          floor[x][y] == if Coord(x, y) in ps[..i] then st.empty[x][y] else st.floor[x][y]
      {
        assert ps[..i + 1] == ps[..i] + [ps[i]];
        floor := Put(floor, ps[i], st.empty[ps[i].x][ps[i].y]);
        i := i + 1;
      }
      assert ps[..|ps|] == ps;
    }
    ghost var restored := floor;
    var j := 0;
    while j < |coords|
      invariant 0 <= j <= |coords|
      invariant SameShape(floor, st.floor)
      invariant forall x, y | 0 <= x < |floor| && 0 <= y < |floor[x]| ::
        floor[x][y] == if Coord(x, y) in coords[..j] then PersonMark else restored[x][y]
    {
      assert coords[..j + 1] == coords[..j] + [coords[j]];
      floor := Put(floor, coords[j], PersonMark);
      j := j + 1;
    }
    assert coords[..|coords|] == coords;
    next := CameraState(st.empty, floor, Some(coords));
    frame := floor;
  }
}
