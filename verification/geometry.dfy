/** The integer point-in-polygon test behind `Intersection.contains_coord` (util.py). */
module Geometry {
  import opened Coords
  import opened Floats

  /** The cross term `_orientation` compares with zero. */
  function Cross(p: Coord, q: Coord, r: Coord): int {
    (q.y - p.y) * (r.x - q.x) - (q.x - p.x) * (r.y - q.y)
  }

  /** `_orientation`: 0 for collinear, 1 for clockwise, 2 for counter-clockwise. */
  function Orientation(p: Coord, q: Coord, r: Coord): (o: int)
    ensures o == 0 <==> Cross(p, q, r) == 0
    ensures o == 1 <==> Cross(p, q, r) > 0
    ensures o == 2 <==> Cross(p, q, r) < 0
  {
    var v := Cross(p, q, r);
    if v == 0 then 0 else if v > 0 then 1 else 2
  }

  /** Reversing the triplet negates the cross term. */
  lemma CrossReversed(p: Coord, q: Coord, r: Coord)
    ensures Cross(r, q, p) == -Cross(p, q, r)
  {
    var ax, ay, dx, dy := q.x - p.x, q.y - p.y, r.x - q.x, r.y - q.y;
    assert Cross(p, q, r) == ay * dx - ax * dy;
    assert Cross(r, q, p) == (-dy) * (-ax) - (-dx) * (-ay);
  }

  /** Reading the triplet backwards swaps clockwise and counter-clockwise and keeps collinear. */
  lemma OrientationReversed(p: Coord, q: Coord, r: Coord)
    ensures Orientation(p, q, r) == 0 <==> Orientation(r, q, p) == 0
    ensures Orientation(p, q, r) == 1 <==> Orientation(r, q, p) == 2
    ensures Orientation(p, q, r) == 2 <==> Orientation(r, q, p) == 1
  {
    CrossReversed(p, q, r);
  }

  /** Exchanging the first two points negates the cross term. */
  lemma CrossSwapFirst(p: Coord, q: Coord, r: Coord)
    ensures Cross(q, p, r) == -Cross(p, q, r)
  {
    var ax, ay, dx, dy := q.x - p.x, q.y - p.y, r.x - q.x, r.y - q.y;
    assert Cross(p, q, r) == ay * dx - ax * dy;
    assert Cross(q, p, r) == (-ay) * (dx + ax) - (-ax) * (dy + ay);
  }

  /** Moving the middle point to the end negates the cross term. */
  lemma CrossSwapLast(p: Coord, q: Coord, r: Coord)
    ensures Cross(p, r, q) == -Cross(p, q, r)
  {
    var ax, ay, dx, dy := q.x - p.x, q.y - p.y, r.x - q.x, r.y - q.y;
    assert Cross(p, q, r) == ay * dx - ax * dy;
    assert Cross(p, r, q) == (ay + dy) * (-dx) - (ax + dx) * (-dy);
  }

  /** `_onSegment(p, q, r)`: `q` lies in the bounding box of `p` and `r`. */
  predicate OnSegment(p: Coord, q: Coord, r: Coord) {
    q.x <= Max(p.x, r.x) && q.x >= Min(p.x, r.x) && q.y <= Max(p.y, r.y) && q.y >= Min(p.y, r.y)
  }

  /** The bounding-box test, written without `min`/`max`, and symmetric in the segment's ends. */
  lemma OnSegmentIsBoundingBox(p: Coord, q: Coord, r: Coord)
    ensures OnSegment(p, q, r) <==>
      ((p.x <= q.x <= r.x || r.x <= q.x <= p.x) && (p.y <= q.y <= r.y || r.y <= q.y <= p.y))
    ensures OnSegment(p, q, r) == OnSegment(r, q, p)
    ensures OnSegment(p, p, r) && OnSegment(p, r, r)
  {
  }

  /** `_doIntersect`: segment `p1q1` meets segment `p2q2`, by the general and the four collinear cases. */
  predicate DoIntersect(p1: Coord, q1: Coord, p2: Coord, q2: Coord) {
    var o1 := Orientation(p1, q1, p2);
    var o2 := Orientation(p1, q1, q2);
    var o3 := Orientation(p2, q2, p1);
    var o4 := Orientation(p2, q2, q1);
    || (o1 != o2 && o3 != o4)
    || (o1 == 0 && OnSegment(p1, p2, q1))
    || (o2 == 0 && OnSegment(p1, q2, q1))
    || (o3 == 0 && OnSegment(p2, p1, q2))
    || (o4 == 0 && OnSegment(p2, q1, q2))
  }

  /** Whether two segments meet does not depend on which is named first. */
  lemma DoIntersectSymmetric(p1: Coord, q1: Coord, p2: Coord, q2: Coord)
    ensures DoIntersect(p1, q1, p2, q2) == DoIntersect(p2, q2, p1, q1)
  {
  }

  /** Nor on the direction in which the first segment is traversed. */
  lemma DoIntersectReversed(p1: Coord, q1: Coord, p2: Coord, q2: Coord)
    ensures DoIntersect(p1, q1, p2, q2) == DoIntersect(q1, p1, p2, q2)
  {
    CrossSwapFirst(p1, q1, p2);
    CrossSwapFirst(p1, q1, q2);
    OnSegmentIsBoundingBox(p1, p2, q1);
    OnSegmentIsBoundingBox(p1, q2, q1);
  }

  /** `p` lies on the segment from `a` to `b`: the test the ray cast applies to a collinear edge. */
  predicate OnEdge(a: Coord, p: Coord, b: Coord) {
    Orientation(a, p, b) == 0 && OnSegment(a, p, b)
  }

  /** A point on a segment is met by every segment that starts at it. */
  lemma OnEdgeIsHit(a: Coord, p: Coord, b: Coord, e: Coord)
    requires OnEdge(a, p, b)
    ensures DoIntersect(a, b, p, e)
  {
    CrossSwapLast(a, p, b);
  }

  /** The largest x among the polygon's vertices and `x0`. */
  function MaxX(poly: seq<Coord>, x0: int): (m: int)
    ensures m >= x0
    ensures forall v | v in poly :: v.x <= m
  {
    if |poly| == 0 then x0 else Max(poly[0].x, MaxX(poly[1..], x0))
  }

  /** The far end of the horizontal ray from `p`: an integer beyond every vertex and `p`
      itself, standing in for the source's infinite x. */
  function Extreme(poly: seq<Coord>, p: Coord): (e: Coord)
    ensures e.y == p.y && e.x > p.x
    ensures forall v | v in poly :: v.x < e.x
  {
    Coord(MaxX(poly, p.x) + 1, p.y)
  }

  /** Index of the vertex that closes edge `i`, `(i + 1) % n`. */
  function Next(n: nat, i: nat): (j: nat)
    requires i < n
    ensures j < n
  {
    (i + 1) % n
  }

  /** Edge `i` of the polygon meets the ray from `p` to `e`. */
  predicate Hits(poly: seq<Coord>, p: Coord, e: Coord, i: nat)
    requires i < |poly|
  {
    DoIntersect(poly[i], poly[Next(|poly|, i)], p, e)
  }

  /** `p` is collinear with edge `i` (the source's `_orientation(polygon[i], p, polygon[next]) == 0`). */
  predicate Collinear(poly: seq<Coord>, p: Coord, i: nat)
    requires i < |poly|
  {
    Orientation(poly[i], p, poly[Next(|poly|, i)]) == 0
  }

  /** `p` lies on edge `i`. */
  predicate OnPolygonEdge(poly: seq<Coord>, p: Coord, i: nat)
    requires i < |poly|
  {
    OnEdge(poly[i], p, poly[Next(|poly|, i)])
  }

  /** `p` lies on the polygon's boundary. */
  predicate OnBoundary(poly: seq<Coord>, p: Coord) {
    exists i :: 0 <= i < |poly| && OnPolygonEdge(poly, p, i)
  }

  /** Edge `i` spans the row of `p` by the half-open rule: exactly one of its ends lies
      strictly above `p`. A ray through a vertex then counts one of the vertex's two edges when
      the boundary passes through the row there, and none or both when it only touches it. */
  predicate Straddles(poly: seq<Coord>, p: Coord, i: nat)
    requires i < |poly|
  {
    (poly[i].y > p.y) != (poly[Next(|poly|, i)].y > p.y)
  }

  /** The number of edges among the first `k` that the ray crosses, not collinear with `p`
      and spanning its row by the half-open rule. */
  function Crossings(poly: seq<Coord>, p: Coord, e: Coord, k: nat): nat
    requires k <= |poly|
  {
    if k == 0 then 0
    else
      var crosses := Hits(poly, p, e, k - 1) && !Collinear(poly, p, k - 1) && Straddles(poly, p, k - 1);
      Crossings(poly, p, e, k - 1) + (if crosses then 1 else 0)
  }

  /** The number of edges among the first `k` that the ray meets without being collinear with
      `p`: what the source's `count` adds up, a ray through a vertex meeting both its edges. */
  function HitCount(poly: seq<Coord>, p: Coord, e: Coord, k: nat): nat
    requires k <= |poly|
  {
    if k == 0 then 0
    else HitCount(poly, p, e, k - 1) + (if Hits(poly, p, e, k - 1) && !Collinear(poly, p, k - 1) then 1 else 0)
  }

  /** The corrected loop: a collinear edge decides only when `p` lies on it, a collinear edge
      that misses `p` neither decides nor counts, and an edge the ray meets counts only when it
      spans the row of `p` by the half-open rule. */
  function Scan(poly: seq<Coord>, p: Coord, e: Coord, i: nat, count: nat): bool
    requires i <= |poly|
    decreases |poly| - i
  {
    if i == |poly| then count % 2 == 1
    else if Hits(poly, p, e, i) then
      if Collinear(poly, p, i) then
        if OnSegment(poly[i], p, poly[Next(|poly|, i)]) then true else Scan(poly, p, e, i + 1, count)
      else Scan(poly, p, e, i + 1, if Straddles(poly, p, i) then count + 1 else count)
    else Scan(poly, p, e, i + 1, count)
  }

  lemma {:induction false} ScanResult(poly: seq<Coord>, p: Coord, e: Coord, i: nat, count: nat)
    requires i <= |poly|
    requires count == Crossings(poly, p, e, i)
    ensures (exists k :: i <= k < |poly| && OnPolygonEdge(poly, p, k)) ==> Scan(poly, p, e, i, count)
    ensures (forall k :: i <= k < |poly| ==> !OnPolygonEdge(poly, p, k)) ==>
      Scan(poly, p, e, i, count) == (Crossings(poly, p, e, |poly|) % 2 == 1)
    decreases |poly| - i
  {
    if i < |poly| {
      if OnPolygonEdge(poly, p, i) {
        OnEdgeIsHit(poly[i], p, poly[Next(|poly|, i)], e);
      } else {
        ScanResult(poly, p, e, i + 1, Crossings(poly, p, e, i + 1));
        assert Scan(poly, p, e, i, count) == Scan(poly, p, e, i + 1, Crossings(poly, p, e, i + 1));
      }
    }
  }

  /** The corrected `_isInside`: a finite far end replaces `float('inf')`, and a collinear edge
      that misses `p` is passed over instead of deciding, and a crossing counts by the half-open
      rule so that a ray through a vertex is not counted twice. Every boundary point is inside,
      and away from the boundary the parity of the crossings decides. */
  function IsInside(poly: seq<Coord>, p: Coord): (r: bool)
    ensures |poly| < 3 ==> !r
    ensures |poly| >= 3 && OnBoundary(poly, p) ==> r
    ensures |poly| >= 3 && !OnBoundary(poly, p) ==> r == (Crossings(poly, p, Extreme(poly, p), |poly|) % 2 == 1)
  {
    if |poly| < 3 then false
    else
      ScanResult(poly, p, Extreme(poly, p), 0, 0);
      Scan(poly, p, Extreme(poly, p), 0, 0)
  }

  // ---------------------------------------------------------------------------------------
  // The collinear rule of `_isInside` as written, once the ray end is finite

  /** Edge `i` meets the ray and is collinear with `p`: the edges at which the loop returns. */
  predicate CollinearHit(poly: seq<Coord>, p: Coord, e: Coord, i: nat)
    requires i < |poly|
  {
    Hits(poly, p, e, i) && Collinear(poly, p, i)
  }

  /** The loop of `_isInside` from edge `i` on with the ray end `e`, returning `_onSegment` at
      the first collinear edge the ray meets, as the source does. */
  function ScanFiniteEnd(poly: seq<Coord>, p: Coord, e: Coord, i: nat, count: nat): bool
    requires i <= |poly|
    decreases |poly| - i
  {
    if i == |poly| then count % 2 == 1
    else if Hits(poly, p, e, i) then
      if Collinear(poly, p, i) then OnSegment(poly[i], p, poly[Next(|poly|, i)])
      else ScanFiniteEnd(poly, p, e, i + 1, count + 1)
    else ScanFiniteEnd(poly, p, e, i + 1, count)
  }

  /** With the source's collinear rule, the first collinear edge the ray meets decides: the
      answer is whether `p` lies on that edge. Without such an edge the crossing parity decides. */
  lemma {:induction false} ScanFiniteEndResult(poly: seq<Coord>, p: Coord, e: Coord, i: nat, count: nat)
    requires i <= |poly|
    requires count == HitCount(poly, p, e, i)
    ensures (forall k :: i <= k < |poly| ==> !CollinearHit(poly, p, e, k)) ==>
      ScanFiniteEnd(poly, p, e, i, count) == (HitCount(poly, p, e, |poly|) % 2 == 1)
    ensures forall k | i <= k < |poly| && CollinearHit(poly, p, e, k) &&
      (forall j | i <= j < k :: !CollinearHit(poly, p, e, j)) ::
      ScanFiniteEnd(poly, p, e, i, count) == OnPolygonEdge(poly, p, k)
    decreases |poly| - i
  {
    if i < |poly| && !CollinearHit(poly, p, e, i) {
      ScanFiniteEndResult(poly, p, e, i + 1, HitCount(poly, p, e, i + 1));
      assert ScanFiniteEnd(poly, p, e, i, count) == ScanFiniteEnd(poly, p, e, i + 1, HitCount(poly, p, e, i + 1));
    }
  }

  /** A 3 by 3 square with an extra vertex `(3, 1)` on its bottom side, so that its first edge
      lies on the ray from its last vertex `(1, 1)`. */
  const SplitSquare: seq<Coord> := [Coord(3, 1), Coord(4, 1), Coord(4, 4), Coord(1, 4), Coord(1, 1)]

  lemma SplitSquareVertices()
    ensures |SplitSquare| == 5 && Next(5, 0) == 1 && Next(5, 4) == 0
    ensures SplitSquare[0] == Coord(3, 1) && SplitSquare[1] == Coord(4, 1) && SplitSquare[4] == Coord(1, 1)
  {
  }

  lemma SplitSquareExtreme()
    ensures Extreme(SplitSquare, Coord(1, 1)) == Coord(5, 1)
  {
    assert MaxX(SplitSquare[5..], 1) == 1;
    assert MaxX(SplitSquare[4..], 1) == 1;
    assert MaxX(SplitSquare[3..], 1) == 1;
    assert MaxX(SplitSquare[2..], 1) == 4;
    assert MaxX(SplitSquare[1..], 1) == 4;
  }

  /** The start `(3, 1)` of the first edge lies on the ray from `(1, 1)` to `(5, 1)`. */
  lemma FlatEdgeStartOnRay()
    ensures Orientation(Coord(1, 1), Coord(5, 1), Coord(3, 1)) == 0
    ensures OnSegment(Coord(1, 1), Coord(3, 1), Coord(5, 1))
  {
  }

  /** So the first edge, from `(3, 1)` to `(4, 1)`, meets that ray. */
  lemma FlatEdgeMeetsRay()
    ensures DoIntersect(Coord(3, 1), Coord(4, 1), Coord(1, 1), Coord(5, 1))
  {
    FlatEdgeStartOnRay();
  }

  /** `(1, 1)` is collinear with the first edge but does not lie on it. */
  lemma FlatEdgeMissesStart()
    ensures Orientation(Coord(3, 1), Coord(1, 1), Coord(4, 1)) == 0
    ensures !OnSegment(Coord(3, 1), Coord(1, 1), Coord(4, 1))
  {
  }

  /** With a finite far end, the source's collinear rule reports the vertex `(1, 1)` of
      `SplitSquare` as outside, because the first edge meets the ray collinearly and misses the
      point; the corrected test reports it inside. */
  lemma CollinearEdgeHidesBoundary()
    ensures OnBoundary(SplitSquare, Coord(1, 1))
    ensures !ScanFiniteEnd(SplitSquare, Coord(1, 1), Extreme(SplitSquare, Coord(1, 1)), 0, 0)
    ensures IsInside(SplitSquare, Coord(1, 1))
  {
    SplitSquareVertices();
    assert OnEdge(Coord(1, 1), Coord(1, 1), Coord(3, 1));
    assert OnPolygonEdge(SplitSquare, Coord(1, 1), 4);
    SplitSquareExtreme();
    FlatEdgeMeetsRay();
    FlatEdgeMissesStart();
    assert Hits(SplitSquare, Coord(1, 1), Coord(5, 1), 0) && Collinear(SplitSquare, Coord(1, 1), 0);
  }

  /** A triangle whose vertex `(5, 3)` lies on the ray from the interior point `(2, 3)`. */
  const Wedge: seq<Coord> := [Coord(1, 1), Coord(5, 3), Coord(1, 5)]

  lemma WedgeVertices()
    ensures |Wedge| == 3 && Next(3, 0) == 1 && Next(3, 1) == 2 && Next(3, 2) == 0
    ensures Wedge[0] == Coord(1, 1) && Wedge[1] == Coord(5, 3) && Wedge[2] == Coord(1, 5)
  {
  }

  lemma WedgeExtreme()
    ensures Extreme(Wedge, Coord(2, 3)) == Coord(6, 3)
  {
    assert MaxX(Wedge[3..], 2) == 2;
    assert MaxX(Wedge[2..], 2) == 2;
    assert MaxX(Wedge[1..], 2) == 5;
  }

  /** The lower edge meets the ray from `(2, 3)` to `(6, 3)` at the vertex `(5, 3)`. */
  lemma WedgeLowerEdge()
    ensures DoIntersect(Coord(1, 1), Coord(5, 3), Coord(2, 3), Coord(6, 3))
    ensures Orientation(Coord(1, 1), Coord(2, 3), Coord(5, 3)) != 0
  {
    assert Orientation(Coord(1, 1), Coord(5, 3), Coord(2, 3)) == 2;
    assert Orientation(Coord(1, 1), Coord(5, 3), Coord(6, 3)) == 1;
    assert Orientation(Coord(2, 3), Coord(6, 3), Coord(1, 1)) == 1;
    assert Orientation(Coord(2, 3), Coord(6, 3), Coord(5, 3)) == 0;
  }

  /** So does the upper edge. */
  lemma WedgeUpperEdge()
    ensures DoIntersect(Coord(5, 3), Coord(1, 5), Coord(2, 3), Coord(6, 3))
    ensures Orientation(Coord(5, 3), Coord(2, 3), Coord(1, 5)) != 0
  {
    assert Orientation(Coord(5, 3), Coord(1, 5), Coord(2, 3)) == 2;
    assert Orientation(Coord(5, 3), Coord(1, 5), Coord(6, 3)) == 1;
    assert Orientation(Coord(2, 3), Coord(6, 3), Coord(5, 3)) == 0;
    assert Orientation(Coord(2, 3), Coord(6, 3), Coord(1, 5)) == 2;
  }

  /** The back edge lies behind the ray's start. */
  lemma WedgeBackEdge()
    ensures !DoIntersect(Coord(1, 5), Coord(1, 1), Coord(2, 3), Coord(6, 3))
    ensures !OnSegment(Coord(1, 5), Coord(2, 3), Coord(1, 1))
  {
    assert Orientation(Coord(1, 5), Coord(1, 1), Coord(2, 3)) == 2;
    assert Orientation(Coord(1, 5), Coord(1, 1), Coord(6, 3)) == 2;
    assert Orientation(Coord(2, 3), Coord(6, 3), Coord(1, 5)) == 2;
    assert Orientation(Coord(2, 3), Coord(6, 3), Coord(1, 1)) == 1;
  }

  /** The source's count meets both edges at the vertex `(5, 3)`; the half-open rule counts
      only the upper one, which leaves the row of `(2, 3)` upwards. */
  lemma WedgeCounts()
    ensures !OnBoundary(Wedge, Coord(2, 3))
    ensures forall k | 0 <= k < 3 :: !CollinearHit(Wedge, Coord(2, 3), Coord(6, 3), k)
    ensures HitCount(Wedge, Coord(2, 3), Coord(6, 3), 3) == 2
    ensures Crossings(Wedge, Coord(2, 3), Coord(6, 3), 3) == 1
  {
    var p, e := Coord(2, 3), Coord(6, 3);
    WedgeVertices();
    WedgeLowerEdge();
    WedgeUpperEdge();
    WedgeBackEdge();
    assert Hits(Wedge, p, e, 0) && !Collinear(Wedge, p, 0) && !Straddles(Wedge, p, 0);
    assert Hits(Wedge, p, e, 1) && !Collinear(Wedge, p, 1) && Straddles(Wedge, p, 1);
    assert !Hits(Wedge, p, e, 2) && !OnPolygonEdge(Wedge, p, 2);
    forall k | 0 <= k < 3 ensures !OnPolygonEdge(Wedge, p, k) {
      assert k == 0 || k == 1 || k == 2;
    }
    assert HitCount(Wedge, p, e, 1) == 1 && Crossings(Wedge, p, e, 1) == 0;
    assert HitCount(Wedge, p, e, 2) == 2 && Crossings(Wedge, p, e, 2) == 1;
  }

  /** With a finite far end, the source's count meets both edges at a vertex on the ray, so
      the interior point `(2, 3)` of `Wedge` reads outside; the corrected test reads it inside. */
  lemma VertexCountedTwice()
    ensures !OnBoundary(Wedge, Coord(2, 3))
    ensures !ScanFiniteEnd(Wedge, Coord(2, 3), Extreme(Wedge, Coord(2, 3)), 0, 0)
    ensures IsInside(Wedge, Coord(2, 3))
  {
    WedgeExtreme();
    WedgeCounts();
    ScanFiniteEndResult(Wedge, Coord(2, 3), Coord(6, 3), 0, 0);
  }

  // ---------------------------------------------------------------------------------------
  // `_isInside` as written, with its ray end at `float('inf')`

  /** A point as the Python numbers `_orientation` and `_onSegment` compute with. */
  datatype FCoord = FCoord(x: Float, y: Float)

  function Lift(c: Coord): FCoord {
    FCoord(Fin(c.x), Fin(c.y))
  }

  /** `_orientation` on Python numbers. */
  function FOrientation(p: FCoord, q: FCoord, r: FCoord): int {
    var val := Sub(Mul(Sub(q.y, p.y), Sub(r.x, q.x)), Mul(Sub(q.x, p.x), Sub(r.y, q.y)));
    if Eq(val, Fin(0)) then 0 else if Lt(Fin(0), val) then 1 else 2
  }

  /** `_onSegment` on Python numbers. */
  predicate FOnSegment(p: FCoord, q: FCoord, r: FCoord) {
    && Le(q.x, PyMax(p.x, r.x)) && Le(PyMin(p.x, r.x), q.x)
    && Le(q.y, PyMax(p.y, r.y)) && Le(PyMin(p.y, r.y), q.y)
  }

  /** `_doIntersect` on Python numbers. */
  predicate FDoIntersect(p1: FCoord, q1: FCoord, p2: FCoord, q2: FCoord) {
    var o1 := FOrientation(p1, q1, p2);
    var o2 := FOrientation(p1, q1, q2);
    var o3 := FOrientation(p2, q2, p1);
    var o4 := FOrientation(p2, q2, q1);
    || (o1 != o2 && o3 != o4)
    || (o1 == 0 && FOnSegment(p1, p2, q1))
    || (o2 == 0 && FOnSegment(p1, q2, q1))
    || (o3 == 0 && FOnSegment(p2, p1, q2))
    || (o4 == 0 && FOnSegment(p2, q1, q2))
  }

  /** On integer points the float computations are the integer ones. */
  lemma LiftAgrees(p: Coord, q: Coord, r: Coord)
    ensures FOrientation(Lift(p), Lift(q), Lift(r)) == Orientation(p, q, r)
    ensures FOnSegment(Lift(p), Lift(q), Lift(r)) == OnSegment(p, q, r)
  {
  }

  /** The ray end `Coord(x=float('inf'), y=p.y)`. */
  function InfiniteEnd(p: Coord): FCoord {
    FCoord(PosInf, Fin(p.y))
  }

  /** Against the infinite ray end the orientations degenerate: with the edge first, the cross
      term is an infinity or NaN and never zero; with the ray first, it is `0 * -inf`, which is
      NaN, so the orientation is always 2. */
  lemma InfiniteOrientations(a: Coord, b: Coord, p: Coord)
    ensures FOrientation(Lift(a), Lift(b), InfiniteEnd(p)) == (if b.y > a.y then 1 else 2)
    ensures FOrientation(Lift(p), InfiniteEnd(p), Lift(a)) == 2
  {
    var e := InfiniteEnd(p);
    assert Sub(e.x, Fin(b.x)) == PosInf;
    assert Sub(e.y, Fin(p.y)) == Fin(0);
    assert Sub(Fin(a.x), e.x) == NegInf;
    assert Mul(Fin(0), NegInf) == NaN;
  }

  /** So `_doIntersect(a, b, p, extreme)` holds exactly when `p` lies on the edge `a b`: the
      general case and the three other collinear cases can never fire. */
  lemma InfiniteRayMeetsOnlyThroughP(a: Coord, b: Coord, p: Coord)
    ensures FDoIntersect(Lift(a), Lift(b), Lift(p), InfiniteEnd(p)) <==> OnEdge(a, p, b)
  {
    InfiniteOrientations(a, b, p);
    InfiniteOrientations(b, a, p);
    LiftAgrees(a, b, p);
    LiftAgrees(a, p, b);
    CrossSwapLast(a, p, b);
  }

  /** The loop of `_isInside` from edge `i` on, as written, against the infinite ray end. */
  function ScanAsWritten(poly: seq<Coord>, p: Coord, i: nat, count: nat): bool
    requires i <= |poly|
    decreases |poly| - i
  {
    if i == |poly| then count % 2 == 1
    else
      var a, b := Lift(poly[i]), Lift(poly[Next(|poly|, i)]);
      if FDoIntersect(a, b, Lift(p), InfiniteEnd(p)) then
        if FOrientation(a, Lift(p), b) == 0 then FOnSegment(a, Lift(p), b)
        else ScanAsWritten(poly, p, i + 1, count + 1)
      else ScanAsWritten(poly, p, i + 1, count)
  }

  /** `_isInside(polygon, p)` as written, reading the misspelt ray end as the one it binds. */
  function IsInsideAsWritten(poly: seq<Coord>, p: Coord): bool {
    if |poly| < 3 then false else ScanAsWritten(poly, p, 0, 0)
  }

  /** The loop as written returns true at the first edge holding `p`, and otherwise leaves the
      count where it started. */
  lemma {:induction false} ScanAsWrittenResult(poly: seq<Coord>, p: Coord, i: nat, count: nat)
    requires i <= |poly|
    ensures ScanAsWritten(poly, p, i, count) ==
      ((exists k :: i <= k < |poly| && OnPolygonEdge(poly, p, k)) || count % 2 == 1)
    decreases |poly| - i
  {
    if i < |poly| {
      var a, b := poly[i], poly[Next(|poly|, i)];
      InfiniteRayMeetsOnlyThroughP(a, b, p);
      if OnEdge(a, p, b) {
        LiftAgrees(a, p, b);
        assert OnPolygonEdge(poly, p, i);
      } else {
        ScanAsWrittenResult(poly, p, i + 1, count);
        assert ScanAsWritten(poly, p, i, count) == ScanAsWritten(poly, p, i + 1, count);
        assert (exists k :: i <= k < |poly| && OnPolygonEdge(poly, p, k)) ==
          (exists k :: i + 1 <= k < |poly| && OnPolygonEdge(poly, p, k));
      }
    }
  }

  /** As written, `_isInside` answers exactly whether `p` lies on the boundary of a polygon of
      three or more vertices: no interior point is ever inside. */
  lemma IsInsideAsWrittenResult(poly: seq<Coord>, p: Coord)
    ensures IsInsideAsWritten(poly, p) <==> |poly| >= 3 && OnBoundary(poly, p)
  {
    if |poly| >= 3 {
      ScanAsWrittenResult(poly, p, 0, 0);
    }
  }

  /** A 4 by 4 square. */
  const Square: seq<Coord> := [Coord(0, 0), Coord(4, 0), Coord(4, 4), Coord(0, 4)]

  lemma SquareEdges()
    ensures |Square| == 4 && Next(4, 0) == 1 && Next(4, 1) == 2 && Next(4, 2) == 3 && Next(4, 3) == 0
    ensures Square[0] == Coord(0, 0) && Square[1] == Coord(4, 0)
    ensures Square[2] == Coord(4, 4) && Square[3] == Coord(0, 4)
  {
  }

  /** The centre `(2, 2)` lies on no edge of the square. */
  lemma CentreOffBoundary()
    ensures !OnBoundary(Square, Coord(2, 2))
  {
    SquareEdges();
    forall k | 0 <= k < 4 ensures !OnPolygonEdge(Square, Coord(2, 2), k) {
      assert k == 0 || k == 1 || k == 2 || k == 3;
    }
  }

  /** The bottom edge lies below the ray from the centre. */
  lemma SquareBottomMisses()
    ensures !DoIntersect(Coord(0, 0), Coord(4, 0), Coord(2, 2), Coord(5, 2))
  {
    assert Orientation(Coord(0, 0), Coord(4, 0), Coord(2, 2)) == Orientation(Coord(0, 0), Coord(4, 0), Coord(5, 2));
  }

  /** The right edge crosses the ray and is not collinear with the centre. */
  lemma SquareRightCrosses()
    ensures DoIntersect(Coord(4, 0), Coord(4, 4), Coord(2, 2), Coord(5, 2))
    ensures Orientation(Coord(4, 0), Coord(2, 2), Coord(4, 4)) != 0
  {
    assert Orientation(Coord(4, 0), Coord(4, 4), Coord(2, 2)) != Orientation(Coord(4, 0), Coord(4, 4), Coord(5, 2));
    assert Orientation(Coord(2, 2), Coord(5, 2), Coord(4, 0)) != Orientation(Coord(2, 2), Coord(5, 2), Coord(4, 4));
  }

  /** The top edge lies above the ray. */
  lemma SquareTopMisses()
    ensures !DoIntersect(Coord(4, 4), Coord(0, 4), Coord(2, 2), Coord(5, 2))
  {
    assert Orientation(Coord(4, 4), Coord(0, 4), Coord(2, 2)) == Orientation(Coord(4, 4), Coord(0, 4), Coord(5, 2));
  }

  /** The left edge lies behind the ray's start. */
  lemma SquareLeftMisses()
    ensures !DoIntersect(Coord(0, 4), Coord(0, 0), Coord(2, 2), Coord(5, 2))
  {
    assert Orientation(Coord(0, 4), Coord(0, 0), Coord(2, 2)) == Orientation(Coord(0, 4), Coord(0, 0), Coord(5, 2));
  }

  /** The ray from the centre to `(5, 2)` crosses the right edge only. */
  lemma CentreCrossings()
    ensures Crossings(Square, Coord(2, 2), Coord(5, 2), 4) == 1
  {
    var p, e := Coord(2, 2), Coord(5, 2);
    SquareEdges();
    SquareBottomMisses();
    SquareRightCrosses();
    SquareTopMisses();
    SquareLeftMisses();
    assert Crossings(Square, p, e, 1) == 0 by {
      assert !Hits(Square, p, e, 0);
    }
    assert Crossings(Square, p, e, 2) == 1 by {
      assert Hits(Square, p, e, 1) && !Collinear(Square, p, 1) && Straddles(Square, p, 1);
    }
    assert Crossings(Square, p, e, 3) == 1 by {
      assert !Hits(Square, p, e, 2);
    }
    assert !Hits(Square, p, e, 3);
  }

  lemma SquareExtreme()
    ensures Extreme(Square, Coord(2, 2)) == Coord(5, 2)
  {
    assert MaxX(Square[4..], 2) == 2;
    assert MaxX(Square[3..], 2) == 2;
    assert MaxX(Square[2..], 2) == 4;
    assert MaxX(Square[1..], 2) == 4;
  }

  /** As written, `_isInside` reports the centre of a square as outside, while the corrected
      test reports it inside. */
  lemma AsWrittenMissesInterior()
    ensures !OnBoundary(Square, Coord(2, 2))
    ensures !IsInsideAsWritten(Square, Coord(2, 2))
    ensures IsInside(Square, Coord(2, 2))
  {
    CentreOffBoundary();
    IsInsideAsWrittenResult(Square, Coord(2, 2));
    SquareExtreme();
    CentreCrossings();
  }
}
