# Intersection admission controller, lane network and ideal-path oracle — a Dafny model

This project models the control core of a pedestrian-traffic simulation in which people walk
lanes across a floor grid. An LED at each lane crossing blocks its lane while it is on. Each
intersection grants one queued party at a time. A grant switches off the LEDs of every crossing
compatible with the granted one, so while the intersection is busy, people on those lanes may
also cross. The modelled files:

- **main_controller.py**, the admission controller. `Lane` numbering and its range guard are
  modelled. `IntersectionQueueItem` is modelled with its tuple order, in which roundabout
  lanes come first, then detection time, then coordinate. The constructor's lookup maps and
  allowable-crossing lists are modelled. So are the handling of entry and exit events and
  the dispatch loop of `run`, which admits the least waiting item of every free intersection.
- **util.py**. The label-based `Lane` is modelled, and so is `LocalController` with its
  coordinate→LED map. `Intersection` is modelled with its crossing list and `contains_coord`,
  a ray-casting point-in-polygon test.
- **travel_time.py**, the `Pathfinder`. This is A* over the grid with king moves, the
  `illegalMoves` table and the diagonal-distance heuristic. The model proves that `search`
  returns the least number of moves to the goal, or no answer exactly when the goal cannot be
  reached.
- **camera.py**, the floormap overlay done by one pass of `Camera.run`.

The modules follow the program:

| Dafny file | What it holds |
|---|---|
| `wrappers.dfy` | `Option` and `Result` types. `Result` carries Python's `ValueError` or `KeyError`. |
| `coords.dfy` | The `Coord` named tuple and its order. |
| `lanes.dfy`, `local_controller.dfy`, `geometry.dfy`, `network.dfy` | util.py |
| `queue_items.dfy`, `controller.dfy`, `controller_runs.dfy` | main_controller.py. `controller_runs.dfy` covers runs of many steps. |
| `pathfinder.dfy`, `astar.dfy` | travel_time.py |
| `camera.dfy` | camera.py |

Some modelling choices:

- State is immutable. Every operation returns the new state.
- An operation that raises in Python returns a `Failure`.
- The controller's dictionaries become lookups over the list of intersections. An LED is
  identified by the coordinate of its crossing.
- `PriorityQueue` is a sequence kept in pop order. `heappop` on the A* fringe takes the least
  `(f, g, x, y)` tuple. Two fringe entries with equal tuples are the same entry, pushed twice,
  so which copy is taken does not matter.

The controller's queue is not first-in-first-out. `IntersectionQueueItem.__lt__`
(main_controller.py:85-88) orders roundabout items before all others, whatever their detection
times (`QueueItems.RoundaboutFirst`). Detection time decides only between items with the same
roundabout flag (`QueueItems.SameFlagOrder`).

## Source defects the model corrects

Several lines of the source cannot run as written. In each case the model follows the evident
intent.

- main_controller.py:129, :132, :140, :143 and :146 assign to `intersection_queues`,
  `intersection_id_map`, `intersection_lane_map`, `lane_intersection_coord_map` and
  `lane_intersection_allowable_map` without `self.`. The model fills the controller's own maps.
  It computes each allowable list once every crossing is registered.
- main_controller.py:139 indexes the crossing object as `lane_intersection[0]`. The model uses
  the crossing's coordinate `(x, y)`.
- main_controller.py:152 reads the misspelt attribute `lane_insections`. It also keys
  `intersection_lane_map` by the crossing object rather than by its coordinate. The model reads
  the owning intersection's crossings by coordinate.
- main_controller.py:19-20 use `ROUNDABOUT_INNER` and `ROUNDABOUT_OUTER` unqualified. The model
  uses the class constants, 0 and 1.
- main_controller.py:43-49 and util.py:31-37 define `light_on`, `light_off`, `power_on` and
  `power_off` without `self`. util.py also never imports `time`. The model treats these methods
  as setting the LED's state.
- util.py:56 tests `power_state`, a name that is never defined. The model uses the parameter
  `power_on`.
- util.py:86 stores the class `LocalController` rather than the `local_controller` argument. The
  model stores the argument (`Network.NewIntersection`).
- util.py:152 binds `extream`, but util.py:162 reads `extreme`. The model uses one ray end.
- util.py:152 makes the ray end `float('inf')`. This makes the test report only boundary points;
  see "Findings". The model of `contains_coord` uses a finite ray end instead.

## Model

| member | source | states |
|---|---|---|
| Lanes.NewLane | util.py:7-19 | A label outside the fifteen allowed labels raises `ValueError`. Otherwise the lane keeps the label and has these flags: inner roundabout exactly for `innerRing`; outer roundabout exactly for `outerRing`; roundabout exactly when either holds; to-destination exactly when "in" occurs in the label; from-destination exactly when "out" occurs; destination when either of those holds. |
| Lanes.Contains | util.py:17-18 | Python's `sub in s` is true exactly when `sub` occurs in `s` at some position. |
| Lanes.AllowableLabels | util.py:8-23 | The allowable labels are exactly those the constructor accepts, and both ring labels are among them. |
| Lanes.InnerRingFlags | util.py:14-19 | `innerRing` is an inner roundabout lane and a roundabout. It is to-destination and not from-destination. |
| Lanes.OuterRingFlags | util.py:14-19 | `outerRing` is an outer roundabout lane and from-destination. Because "Ring" contains "in", it is also to-destination. |
| Lanes.EveryLaneIsDest | util.py:8-19 | Every allowed label gives a lane that leads to or from a destination. |
| LocalControl.CoordMap | util.py:43-46 | Every LED's coordinate is a key. Each key maps to the last LED in the list with that coordinate, as repeated dictionary assignment leaves it. |
| LocalControl.NewController | util.py:40-46 | A new controller keeps the LED list, and its map is consistent with it. |
| LocalControl.HasLedIffRegistered | util.py:45-49 | `has_LED(c)` holds exactly when some LED given to the constructor sits at `c`. |
| LocalControl.HasLeds | util.py:51-52 | `has_LEDs` holds exactly when every coordinate is registered. It is vacuously true for an empty list. |
| LocalControl.PowerLed | util.py:54-59 | For an unregistered coordinate nothing changes. Otherwise only the LED the map names takes the requested state, and every other LED is unchanged. |
| LocalControl.ApplyAllResult | util.py:65-66 | After the loop, each LED reached by some coordinate holds the state paired with the last occurrence of that coordinate. The other LEDs are unchanged. |
| LocalControl.PowerLeds | util.py:61-66 | Lists of different lengths raise `ValueError` and nothing else does. On success, reached LEDs take the last paired state and the rest are unchanged. |
| Geometry.Orientation | util.py:106-110 | The result is 0, 1 or 2 exactly when the cross product is zero, positive or negative. |
| Geometry.OrientationReversed | util.py:106-110 | Reversing the triple keeps collinearity and swaps clockwise with counterclockwise. |
| Geometry.OnSegmentIsBoundingBox | util.py:95-98 | `_onSegment` is the bounding-box test. It is symmetric in the two ends and holds at both ends. |
| Geometry.DoIntersectSymmetric | util.py:113-141 | Swapping the two segments does not change `_doIntersect`. |
| Geometry.DoIntersectReversed | util.py:113-141 | Reversing the first segment does not change `_doIntersect`. |
| Geometry.OnEdgeIsHit | util.py:113-141 | A point on an edge makes the ray from it hit that edge, for any ray end. |
| Geometry.Extreme | util.py:151-152 | The ray end stands in for `float('inf')`. It lies on the point's row and strictly right of the point and of every vertex. |
| Geometry.LiftAgrees | util.py:95-110 | On finite integer points, `_orientation` and `_onSegment` in float arithmetic agree with the integer definitions. |
| Geometry.InfiniteOrientations | util.py:106-118 | With the end `(inf, p.y)`, `o2` is 1 when the edge rises and 2 otherwise, never 0. `o3` and `o4` are always 2, because `0 * inf` is NaN and NaN compares false. |
| Geometry.InfiniteRayMeetsOnlyThroughP | util.py:113-141 | With the end `(inf, p.y)`, `_doIntersect(a, b, p, end)` holds exactly when `p` lies on the edge from `a` to `b`. |
| Geometry.ScanAsWrittenResult | util.py:155-176 | With the `float('inf')` ray end, the loop as written returns true at the first edge that holds the point. If no edge from `i` on holds it, the count never grows and the loop returns the parity of the count it started with. |
| Geometry.IsInsideAsWrittenResult | util.py:144-176 | As written, `_isInside` holds exactly when the polygon has at least three vertices and the point lies on its boundary. |
| Geometry.ScanResult | util.py:155-176 | Corrected loop: a point on any edge is inside. Otherwise the parity of the crossings decides. An edge counts when the ray meets it, it is not collinear with the point, and exactly one of its ends lies above the point's row (the half-open rule). A collinear edge that misses the point is passed over. |
| Geometry.IsInside | util.py:144-176 | Corrected test: false below three vertices, true on the boundary, otherwise odd crossing parity under the half-open rule, so a ray through a vertex counts it once where the boundary crosses the row. |
| Geometry.ScanFiniteEndResult | util.py:155-176 | The loop with the source's collinear rule and a finite ray end: the first edge that meets the ray collinearly with the point decides, and the answer is whether the point lies on that edge. Without such an edge, the parity of every non-collinear edge the ray meets decides. |
| Geometry.CollinearEdgeHidesBoundary | util.py:163-167 | On a 3 by 3 square with an extra vertex (3,1) on its bottom side, listed (3,1),(4,1),(4,4),(1,4),(1,1), the vertex (1,1) is on the boundary. The source's collinear rule with a finite ray end reports it outside, because the first edge lies on the ray and misses it. The corrected test reports it inside. |
| Geometry.WedgeCounts | util.py:162-169 | For that triangle and point, the source's count is 2 and the half-open count is 1, and no edge holds the point. |
| Geometry.VertexCountedTwice | util.py:162-169 | On the triangle (1,1),(5,3),(1,5), the ray from the interior point (2,3) to (6,3) passes through the vertex (5,3). The source's count meets both edges there and reports the point outside; the corrected test reports it inside. |
| Geometry.AsWrittenMissesInterior | util.py:144-176 | The centre (2, 2) of the square (0,0),(4,0),(4,4),(0,4) is off the boundary. The test as written reports it outside, and the corrected test reports it inside. |
| Network.NewIntersection | util.py:76-88 | The intersection keeps its name, the local controller passed in, and its entry crossings followed by its exit crossings. Its polygon has a vertex at exactly the crossings' coordinates. With three or more crossings it contains every one of them. |
| Network.VerticesOnBoundary | util.py:88 | Every crossing coordinate lies on the boundary of the crossings' polygon. |
| Network.ContainsCoord | util.py:91-178 | With fewer than three crossings nothing is contained. Otherwise a point on the boundary is contained. Any other point is contained exactly when the ray to the far end crosses an odd number of edges under the half-open rule. So every crossing coordinate is contained. |
| QueueItems.Trichotomy | main_controller.py:85-94 | Exactly one of `<`, `==` and `>` holds between two items. `==` is equality of the tuple and `>` is `<` reversed. |
| QueueItems.RoundaboutFirst | main_controller.py:83-88 | A roundabout item precedes every non-roundabout item. |
| QueueItems.SameFlagOrder | main_controller.py:85-88 | Between items with the same flag, the order is by detection time, then by coordinate. |
| QueueItems.LessTransitive | main_controller.py:87-88 | The item order is transitive. |
| QueueItems.Put | main_controller.py:190 | `PriorityQueue.put` keeps the queue in pop order. The contents gain exactly the new item. |
| QueueItems.HeadIsMinimum | main_controller.py:217 | `get()` returns an item that no waiting item precedes. |
| QueueItems.TailSorted | main_controller.py:217 | The queue left after `get()` is still in pop order. |
| MainController.AsWrittenRejectsEveryLane | main_controller.py:15-17 | As written, the guard raises for every number 0..14 and accepts exactly the negative numbers. |
| MainController.NewLane | main_controller.py:15-24 | Corrected: `ValueError` exactly outside 0..14. A lane keeps its number and leads to or from a destination. |
| MainController.FindCrossing | main_controller.py:142-149 | `lane_intersection_coord_map[c]` finds a crossing at `c`. It finds nothing only when no crossing sits at `c`. |
| MainController.FindOwner | main_controller.py:138-140 | `intersection_lane_map[c]` finds an intersection with a crossing at `c`. It finds nothing only when none has one. |
| MainController.OwnerUnique | main_controller.py:138-140 | In a well-formed network, the owner found for a crossing's coordinate is its own intersection. |
| MainController.CrossingUnique | main_controller.py:142-143 | In a well-formed network, the crossing found for a coordinate is the crossing registered there. |
| MainController.CrossingCoordsOwned | main_controller.py:184 | A coordinate is a crossing of the network exactly when the lookup finds an owner. |
| MainController.Filter | main_controller.py:165-174 | `filter(f, xs)` keeps exactly the crossings the lambda accepts and never adds any. |
| MainController.EveryLaneHasClass | main_controller.py:162-174 | The `if`/`elif` chain always picks one of the four filters. |
| MainController.AllowableHead | main_controller.py:154-176 | The allowable list starts with the crossing itself. An exit crossing allows only itself. |
| MainController.FiltersOnlyDropEntries | main_controller.py:156-174 | For an entry, every exit crossing of the intersection is allowable. Every crossing left out is an entry. |
| MainController.ToDestExcludesConflictingEntries | main_controller.py:159-174 | A to-destination entry allows no roundabout or from-destination entry besides itself. |
| MainController.RoundaboutAndFromDestExclusions | main_controller.py:156-171 | An inner-ring entry excludes from-destination and outer-ring entries. An outer-ring entry excludes from-destination and inner-ring entries. A from-destination entry excludes roundabout entries. |
| MainController.AllowableAt | main_controller.py:145-152 | Every allowable crossing of a registered coordinate belongs to the same intersection. |
| MainController.Init | main_controller.py:121-146 | Every queue starts empty, every intersection starts free, and every crossing's LED is on. The state invariant holds. |
| MainController.Enqueue | main_controller.py:186-193 | An entry adds exactly its item to the intersection's queue and leaves the other queues and the free flags alone. Its crossing's LED is lit exactly when the intersection is busy. |
| MainController.Release | main_controller.py:195-201 | An exit frees the intersection, lights every LED of it, and leaves the queues and the other LEDs alone. |
| MainController.HandleEvent | main_controller.py:181-201 | An event at a coordinate that is not a crossing raises `KeyError`. An entry queues exactly its item on the owning intersection's queue, and lights its LED exactly when that intersection is busy. An exit frees the intersection and lights all of its LEDs. Nothing else changes, and the invariant is kept. |
| MainController.AllowableCoords | main_controller.py:218-219 | The LEDs switched off for a crossing all belong to the crossing's own intersection. |
| MainController.Serve | main_controller.py:215-220 | Serving a free intersection with someone waiting grants the head of its queue. The head leaves the queue, the intersection becomes busy, and every LED at a coordinate of the head's allowable crossings goes off. Other queues, flags and LEDs are unchanged. |
| MainController.ServeKeeps | main_controller.py:215-220 | Serving keeps the invariant. The granted head is an item no waiting item precedes, and LEDs outside the served intersection are unchanged. |
| MainController.DispatchAt | main_controller.py:214-221 | A queue is served only when it is non-empty and its intersection is free; otherwise nothing changes and nothing is granted. Serving grants the head exactly once, pops it, marks the intersection busy, and switches off exactly the LEDs of its allowable crossings. Other intersections are never touched. |
| MainController.DispatchAtLeds | main_controller.py:218-219 | After one iteration, an LED is on exactly when it was on before and is not at an allowable crossing of the granted item, if any. |
| MainController.DispatchAtKeeps | main_controller.py:214-221 | One iteration keeps the invariant, grants an item no waiting item precedes, and never changes an LED outside its intersection. |
| MainController.GrantsToAppendAt | main_controller.py:214-221 | The grants of two consecutive passes add up per intersection. |
| MainController.DispatchFrom | main_controller.py:214-221 | The loop from `i` on admits at each intersection `j >= i` exactly once if `j` was free with someone waiting, and otherwise not at all. An admitted intersection loses the head of its queue and becomes busy. Every other queue and flag is unchanged, and intersections before `i` are untouched. An LED ends on exactly when it was on and is not at an allowable crossing of any granted item. |
| MainController.DispatchFromHeads | main_controller.py:214-217 | Every grant of the loop from `i` on is to an intersection from `i` on with someone waiting, and admits the head of its queue as it was before the loop. |
| MainController.DispatchFromKeeps | main_controller.py:214-221 | The loop from `i` on keeps the invariant. |
| MainController.Dispatch | main_controller.py:214-221 | One pass over all intersections keeps the invariant. Each free intersection with someone waiting is granted once, for the head of its queue, which leaves the queue; the intersection becomes busy. Every other intersection keeps its queue and flag. An LED ends on exactly when it was on and is not at an allowable crossing of any granted item. |
| ControllerRuns.Run | main_controller.py:204-221 | A run of events and dispatch passes fails exactly when one of its events is at a coordinate that is not a crossing, and then with `KeyError`. A run that succeeds keeps the invariant and the network. |
| ControllerRuns.DispatchGrants | main_controller.py:214-221 | A whole dispatch pass admits at each intersection exactly once if it was free with someone waiting, and otherwise not at all. An admission leaves it busy, and no admission leaves its flag as it was. |
| ControllerRuns.AtMostOneGrantBetweenExits | main_controller.py:195-221 | Without an exit event at an intersection, its queue is granted (dequeued) at most once, and not at all if it started busy. This bounds grants, not people: a grant also unblocks every compatible crossing of the intersection. |
| Pathfinding.IllegalMovesClosed | travel_time.py:14-20 | The partner of every listed cell is itself listed. |
| Pathfinding.IllegalMovesSymmetric | travel_time.py:14-20 | The table is an involution: the partner's partner is the cell. |
| Pathfinding.IllegalMovesAdjacent | travel_time.py:14-20 | Every listed pair is orthogonally adjacent. |
| Pathfinding.NewPathfinder | travel_time.py:11-20 | The shape is read from the grid and the table is `illegalMoves`. |
| Pathfinding.NeighboursAreKingMoves | travel_time.py:46-47 | The eight translations are exactly the king moves. |
| Pathfinding.IsMoveValidIsStep | travel_time.py:23-30 | Both branches of `isMoveValid` accept a neighbour exactly when it is in bounds, walkable, unvisited and not the cell's forbidden partner. |
| Pathfinding.HeuristicIsChebyshev | travel_time.py:33-40 | With D = D2 = 1 the heuristic is the larger coordinate difference. It is never negative and is zero only at the goal. |
| Pathfinding.HeuristicConsistent | travel_time.py:33-40 | One move changes the heuristic by at most one. |
| Pathfinding.HeuristicAdmissible | travel_time.py:33-40 | The heuristic never exceeds the number of moves of any path to the goal. |
| AStar.MinIndex | travel_time.py:62 | `heappop` takes an entry that no other fringe entry precedes in tuple order. |
| AStar.Pushes | travel_time.py:72-78 | Each pushed entry costs one more than the popped one and is a valid unvisited move. Its priority is the parent's cost plus the heuristic. Every valid neighbour is pushed. |
| AStar.Frontier | travel_time.py:60-78 | Any path to an unexpanded cell passes a fringe entry whose priority is at most that path's length bound. |
| AStar.PopOptimal | travel_time.py:62-70 | The popped entry, when its cell is not yet expanded, carries the least number of moves to that cell. |
| AStar.GoalFound | travel_time.py:64-65 | Popping the goal returns a cost that some path achieves and that no path beats. The cost is 0 when start and goal coincide. |
| AStar.SkipPreserves | travel_time.py:67-68 | Skipping an already visited cell keeps the search invariant. |
| AStar.ExpandPreserves | travel_time.py:70-78 | Expanding a cell keeps the search invariant. |
| AStar.ExhaustedUnreachable | travel_time.py:60 | If the fringe empties, no path reaches the goal. |
| AStar.Search | travel_time.py:44-78 | `search` returns the least number of moves from start to goal, 0 when they coincide. It returns nothing exactly when no path exists. |
| Camera.NewCamera | camera.py:5-12 | Both floormaps start as the given floormap and no frame has been seen. The overlay invariant holds. |
| Camera.Put | camera.py:22-25 | Writing one cell changes only that cell. |
| Camera.Tick | camera.py:14-31 | After one pass, a cell of the current frame reads 5. A cell only the previous frame held reads as in the empty floormap. Every other cell is unchanged. The frame is remembered and the emitted copy equals the floormap. The overlay invariant is preserved. |

## Left out

- Threads and queues are not modelled. This covers the `Thread` and `Process` bases, `run`'s
  endless loop, the `breach_event_queue` thread and `_handle_breach_event` (logging only), and
  the queues between the camera, the simulator and the controller. `ControllerRuns.Run` stands
  for a run of the loop, with the event queue as a given list of steps.
- Logging, `time.sleep` in the LED methods, and the `TravelTime` process are not modelled. The
  `TravelTime` process computes and plots ideal travel times around `search`.
- simulator.py, image_processing and main.py are outside the core and are not part of this
  model.
- Detection times are `int`s rather than floats. Only their order matters to the queue.
- Geometry.ScanResult passes over a collinear edge that misses the point. It does not follow
  util.py:163-167, which returns `_onSegment` at the first collinear edge the ray meets;
  `Geometry.ScanFiniteEndResult` states that rule (see "Findings").
- Geometry.IsInside decides boundary points first, so it reports every boundary point inside.
  The source's collinear rule does not (`Geometry.CollinearEdgeHidesBoundary`). It also counts
  crossings by the half-open rule, where the source counts every edge the ray meets
  (`Geometry.VertexCountedTwice`).
- Network.ContainsCoord follows the corrected test (`Geometry.IsInside`). Its ray end is a
  finite point right of every vertex (`Geometry.Extreme`). As written, with `float('inf')`,
  `contains_coord` reports only points on the boundary (`Geometry.IsInsideAsWrittenResult`).
  The corrected test also decides boundary points first, instead of stopping at the first edge
  collinear with the point, and counts crossings by the half-open rule.
- Geometry.ScanAsWritten: Python floats are modelled as exact integers, the two infinities and
  NaN (`Floats.Float`). Rounding of integers beyond 2^53 is not modelled.
- MainController.Init, HandleEvent and Dispatch require a well-formed network. That means
  distinct intersection numbers and one crossing per coordinate. The source's dictionaries
  silently overwrite on duplicates, and the model does not follow that. DispatchAt and
  DispatchFrom need only one queue and one flag per intersection.
- MainController: LEDs are identified by the coordinate of their crossing rather than as
  shared objects. Two crossings sharing an LED object are not modelled.
- MainController.NewLane uses `Person.NUM_LANES` (15), which is what the guard reads.
  `Lane.NUM_LANES` (14) is unused.
- Camera.Tick requires every coordinate to name a cell of the floormap. numpy's wrap-around for
  negative indices and its `IndexError` are not modelled.
- Pathfinding.NewPathfinder: an empty grid gets the shape (0, 0). numpy would report `(0,)`,
  which the unpacking rejects.
- AStar.Search: the pushed priority is the parent's cost plus the heuristic, not the child's
  cost. This is modelled as written. It shifts all pushed priorities by one and does not change
  the result.

## Findings

| source | as written | input that shows it | evidently intended | confidence | as-written member | corrected member |
|---|---|---|---|---|---|---|
| main_controller.py:16 | `if 0 <= num or num >= Person.NUM_LANES: raise ValueError` | `Lane(3)` raises, and `Lane(-1)` is accepted | raise exactly when `num` is outside 0..14: `not (0 <= num < NUM_LANES)` | high, not executed | MainController.AsWrittenRejectsEveryLane | MainController.NewLane |
| util.py:152 | the ray end is `Coord(x=float('inf'), y=p.y)`. Then `0 * inf` is NaN and NaN compares false, so `o3 == o4 == 2` and `_doIntersect` holds only for an edge that holds `p`. The count never grows, and every point off the boundary is outside | square (0,0),(4,0),(4,4),(0,4) with p = (2,2): returns False | ray casting: a far end right of every vertex on `p`'s row, with each crossed edge counted by the half-open rule, so the parity of crossed edges decides | high, not executed | Geometry.AsWrittenMissesInterior | Geometry.IsInside |
| util.py:163-167 | at the first edge the ray meets collinearly with `p`, returns `_onSegment(...)` for that edge, even when `p` lies on a later edge. This is hidden while the ray end is `float('inf')` (util.py:152) and shows once the ray end is finite | polygon (3,1),(4,1),(4,4),(1,4),(1,1) with p = (1,1) and ray end (5,1): the first edge (3,1)-(4,1) lies on the ray and misses p, so the result is False, though p is a vertex | every point on the boundary is inside; a collinear edge that misses `p` neither decides nor counts | medium, not executed | Geometry.CollinearEdgeHidesBoundary | Geometry.IsInside |
| util.py:169 | `count += 1` for every non-collinear edge the ray meets. A ray through a vertex meets both edges there, so a crossing at a vertex is counted twice. This is hidden while the ray end is `float('inf')` (util.py:152) and shows once the ray end is finite | triangle (1,1),(5,3),(1,5) with p = (2,3) and ray end (6,3): both edges at (5,3) are met, the count is 2 and the result is False, though p is strictly inside | count an edge only when exactly one of its ends lies above `p`'s row (the half-open rule) | medium, not executed | Geometry.VertexCountedTwice | Geometry.IsInside |
