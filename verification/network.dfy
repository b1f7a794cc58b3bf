/** Lane crossings and intersections of the road network (util.py). */
module Network {
  import opened Coords
  import opened Lanes
  import opened LocalControl
  import opened Geometry

  /** `LaneIntersection`: where a lane meets an intersection, with the LED guarding it. */
  datatype LaneCrossing = LaneCrossing(coord: Coord, led: Led, lane: Lane)

  /** `Intersection`: its label, entry and exit crossings, and the controller owning their LEDs. */
  datatype Intersection = Intersection(
    name: string,
    entries: seq<LaneCrossing>,
    exits: seq<LaneCrossing>,
    controller: LocalController)
  {
    /** `lane_intersections`: the entries followed by the exits. */
    function Crossings(): seq<LaneCrossing> {
      entries + exits
    }

    /** `lane_intersection_coords`, the polygon `contains_coord` tests against. */
    function Polygon(): (poly: seq<Coord>)
      ensures |poly| == |entries| + |exits|
      ensures forall i | 0 <= i < |entries| :: poly[i] == entries[i].coord
      ensures forall i | 0 <= i < |exits| :: poly[|entries| + i] == exits[i].coord
    {
      seq(|entries| + |exits|, i requires 0 <= i < |entries| + |exits| => Crossings()[i].coord)
    }
  }

  /** `Intersection(label, entries, exits, local_controller)`, keeping the controller it is given.
      Its polygon has a vertex at exactly the coordinates of its crossings, and once there are
      three or more crossings it contains each of them. */
  function NewIntersection(name: string, entries: seq<LaneCrossing>, exits: seq<LaneCrossing>,
                           lc: LocalController): (r: Intersection)
    ensures r.name == name && r.controller == lc && r.Crossings() == entries + exits
    ensures forall c :: c in r.Polygon() <==> exists x | x in entries + exits :: x.coord == c
    ensures |entries| + |exits| >= 3 ==> forall x | x in entries + exits :: ContainsCoord(r, x.coord)
  {
    var r := Intersection(name, entries, exits, lc);
    assert forall c :: c in r.Polygon() <==> exists x | x in entries + exits :: x.coord == c by {
      forall c ensures c in r.Polygon() <==> exists x | x in entries + exits :: x.coord == c {
        if c in r.Polygon() {
          var k :| 0 <= k < |r.Polygon()| && r.Polygon()[k] == c;
          assert (entries + exits)[k] in entries + exits;
        }
        if exists x | x in entries + exits :: x.coord == c {
          var x :| x in entries + exits && x.coord == c;
          var k :| 0 <= k < |entries + exits| && (entries + exits)[k] == x;
          assert r.Polygon()[k] == c;
        }
      }
    }
    r
  }

  /** Every vertex of a polygon lies on the edge it starts. */
  lemma VerticesOnBoundary(poly: seq<Coord>)
    ensures forall c | c in poly :: OnBoundary(poly, c)
  {
    forall c | c in poly ensures OnBoundary(poly, c) {
      var k :| 0 <= k < |poly| && poly[k] == c;
      assert OnPolygonEdge(poly, c, k);
    }
  }

  /** `contains_coord`, with the ray cast as evidently intended (`Geometry.IsInside`): false
      below three crossings, true on the boundary of the crossings' polygon, and elsewhere the
      parity of the ray's crossings. Every crossing coordinate lies in it. */
  function ContainsCoord(inter: Intersection, c: Coord): (r: bool)
    ensures |inter.Polygon()| < 3 ==> !r
    ensures |inter.Polygon()| >= 3 && OnBoundary(inter.Polygon(), c) ==> r
    ensures |inter.Polygon()| >= 3 && !OnBoundary(inter.Polygon(), c) ==>
      r == (Crossings(inter.Polygon(), c, Extreme(inter.Polygon(), c), |inter.Polygon()|) % 2 == 1)
    ensures |inter.Polygon()| >= 3 && c in inter.Polygon() ==> r
  {
    var poly := inter.Polygon();
    VerticesOnBoundary(poly);
    IsInside(poly, c)
  }
}
