/** The intersection admission controller `MainController` (main_controller.py): per-intersection
    priority queues, free flags and the LEDs of the lane crossings. */
module MainController {
  import opened Coords
  import opened Wrappers
  import opened QueueItems

  /** `Person.NUM_LANES`, the bound the lane guard reads. */
  const NUM_LANES: int := 15
  const ROUNDABOUT_INNER: int := 0
  const ROUNDABOUT_OUTER: int := 1

  /** A numbered lane and the flags `Lane.__init__` derives from its number. */
  datatype Lane = Lane(num: int) {
    predicate IsInnerRoundabout() { num == ROUNDABOUT_INNER }
    predicate IsOuterRoundabout() { num == ROUNDABOUT_OUTER }
    predicate IsRoundabout() { IsInnerRoundabout() || IsOuterRoundabout() }
    predicate IsToDest() { num % 2 == 0 }
    predicate IsFromDest() { num % 2 == 1 }
    predicate IsDest() { IsToDest() || IsFromDest() }
  }

  /** The range guard of `Lane.__init__` as written: `0 <= num or num >= NUM_LANES`. */
  predicate GuardRejectsAsWritten(num: int) {
    0 <= num || num >= NUM_LANES
  }

  /** `Lane(num)` as written. */
  function NewLaneAsWritten(num: int): Result<Lane> {
    if GuardRejectsAsWritten(num) then Failure(ValueError("Lane num is out of range")) else Success(Lane(num))
  }

  /** As written, the guard raises for every lane number in range and admits only negative ones. */
  lemma AsWrittenRejectsEveryLane(num: int)
    ensures 0 <= num < NUM_LANES ==> NewLaneAsWritten(num).Failure?
    ensures NewLaneAsWritten(num).Success? <==> num < 0
  {
  }

  /** `Lane(num)` with the range check the error message describes: a `ValueError` exactly
      for numbers outside `0 .. NUM_LANES - 1`. */
  function NewLane(num: int): (r: Result<Lane>)
    ensures r.Failure? <==> !(0 <= num < NUM_LANES)
    ensures r.Failure? ==> r.error.ValueError?
    ensures r.Success? ==> r.value.num == num && r.value.IsDest()
  {
    if num < 0 || num >= NUM_LANES then Failure(ValueError("Lane num is out of range")) else Success(Lane(num))
  }

  /** `LaneIntersection`: a crossing of a lane into (entry) or out of (exit) an intersection.
      Its LED is identified by the crossing's coordinate. */
  datatype Crossing = Crossing(coord: Coord, lane: Lane, isEntry: bool)

  /** `Intersection`: its number and lane crossings; its `is_free` flag lives in the controller state. */
  datatype Intersection = Intersection(num: int, crossings: seq<Crossing>)

  datatype Person = Person(x: int, y: int, lane: Lane)

  /** `IntersectionEvent`: a person detected at a crossing, entering or leaving. */
  datatype Event = Event(person: Person, isEntry: bool, time: int)

  ghost predicate HasCrossingAt(inter: Intersection, c: Coord) {
    exists k :: 0 <= k < |inter.crossings| && inter.crossings[k].coord == c
  }

  /** The configuration the controller's dictionaries rely on: distinct intersection numbers and
      one crossing per coordinate across the whole network. */
  ghost predicate WellFormed(net: seq<Intersection>) {
    && (forall i, j | 0 <= i < j < |net| :: net[i].num != net[j].num)
    && (forall i, k, l | 0 <= i < |net| && 0 <= k < l < |net[i].crossings| ::
          net[i].crossings[k].coord != net[i].crossings[l].coord)
    && (forall i, j, c | 0 <= i < j < |net| :: !(HasCrossingAt(net[i], c) && HasCrossingAt(net[j], c)))
  }

  /** Coordinates of every crossing of the network. */
  function CrossingCoords(net: seq<Intersection>): set<Coord> {
    set i, k | 0 <= i < |net| && 0 <= k < |net[i].crossings| :: net[i].crossings[k].coord
  }

  /** Coordinates of the crossings of one intersection. */
  function CoordsOf(inter: Intersection): (s: set<Coord>)
    ensures forall c :: c in s <==> HasCrossingAt(inter, c)
  {
    set k | 0 <= k < |inter.crossings| :: inter.crossings[k].coord
  }

  /** Index of the crossing at `c` within `cs`, if any. */
  function FindCrossing(cs: seq<Crossing>, c: Coord): (r: Option<nat>)
    ensures r.Some? ==> r.value < |cs| && cs[r.value].coord == c
    ensures r.None? ==> forall k | 0 <= k < |cs| :: cs[k].coord != c
  {
    if |cs| == 0 then None
    else if cs[|cs| - 1].coord == c then Some(|cs| - 1)
    else FindCrossing(cs[..|cs| - 1], c)
  }

  /** `intersection_lane_map[c]`: index of the intersection owning the crossing at `c`, if any. */
  function FindOwner(net: seq<Intersection>, c: Coord): (r: Option<nat>)
    ensures r.Some? ==> r.value < |net| && HasCrossingAt(net[r.value], c)
    ensures r.None? ==> forall i | 0 <= i < |net| :: !HasCrossingAt(net[i], c)
  {
    if |net| == 0 then None
    else if FindCrossing(net[|net| - 1].crossings, c).Some? then Some(|net| - 1)
    else FindOwner(net[..|net| - 1], c)
  }

  lemma OwnerUnique(net: seq<Intersection>, i: nat, c: Coord)
    requires WellFormed(net) && i < |net| && HasCrossingAt(net[i], c)
    ensures FindOwner(net, c) == Some(i)
  {
  }

  lemma CrossingUnique(inter: Intersection, k: nat, net: seq<Intersection>, i: nat)
    requires WellFormed(net) && i < |net| && net[i] == inter && k < |inter.crossings|
    ensures FindCrossing(inter.crossings, inter.crossings[k].coord) == Some(k)
  {
  }

  lemma CrossingCoordsOwned(net: seq<Intersection>, c: Coord)
    ensures c in CrossingCoords(net) <==> FindOwner(net, c).Some?
  {
    if c in CrossingCoords(net) {
      var i, k :| 0 <= i < |net| && 0 <= k < |net[i].crossings| && net[i].crossings[k].coord == c;
      assert HasCrossingAt(net[i], c);
    }
    if FindOwner(net, c).Some? {
      var i := FindOwner(net, c).value;
      var k :| 0 <= k < |net[i].crossings| && net[i].crossings[k].coord == c;
    }
  }

  // ---------------------------------------------------------------------------------------
  // Allowable crossings

  /** Which of the four lane-class filters `_get_allowable_lane_intersections` applies. */
  datatype LaneClass = InnerClass | OuterClass | FromDestClass | ToDestClass | NoClass

  /** The `if`/`elif` chain choosing the filter, in the source's order. */
  function ClassOf(lane: Lane): LaneClass {
    if lane.IsInnerRoundabout() then InnerClass
    else if lane.IsOuterRoundabout() then OuterClass
    else if lane.IsFromDest() then FromDestClass
    else if lane.IsToDest() then ToDestClass
    else NoClass
  }

  /** The four filter lambdas. */
  predicate Keeps(cls: LaneClass, x: Crossing) {
    match cls
    case InnerClass => !(x.isEntry && (x.lane.IsFromDest() || x.lane.IsOuterRoundabout()))
    case OuterClass => !(x.isEntry && (x.lane.IsFromDest() || x.lane.IsInnerRoundabout()))
    case FromDestClass => !(x.isEntry && x.lane.IsRoundabout())
    case ToDestClass => !(x.isEntry && (x.lane.IsRoundabout() || x.lane.IsFromDest()))
    case NoClass => false
  }

  /** `filter(f, lane_intersections)`: the kept crossings, in order. */
  function Filter(cls: LaneClass, cs: seq<Crossing>): (r: seq<Crossing>)
    ensures |r| <= |cs|
    ensures forall x :: x in r <==> x in cs && Keeps(cls, x)
  {
    if |cs| == 0 then []
    else
      var rest := Filter(cls, cs[1..]);
      assert forall x :: x in cs <==> x == cs[0] || x in cs[1..];
      if Keeps(cls, cs[0]) then [cs[0]] + rest else rest
  }

  /** `_get_allowable_lane_intersections`: the crossing itself, then, for an entry, the crossings
      of its intersection that its lane class's filter keeps. */
  function Allowable(own: Crossing, all: seq<Crossing>): seq<Crossing> {
    [own] + (if own.isEntry then Filter(ClassOf(own.lane), all) else [])
  }

  /** Every lane has a class: the final `else` of the chain cannot be reached. */
  lemma EveryLaneHasClass(lane: Lane)
    ensures ClassOf(lane) != NoClass
  {
  }

  /** An exit crossing allows only itself; an entry's list starts with itself. */
  lemma AllowableHead(own: Crossing, all: seq<Crossing>)
    ensures |Allowable(own, all)| >= 1 && Allowable(own, all)[0] == own
    ensures !own.isEntry ==> Allowable(own, all) == [own]
  {
  }

  /** The filters only drop entry crossings: every exit crossing of the intersection is
      allowable for every entry, and a crossing of the intersection left out is an entry. */
  lemma FiltersOnlyDropEntries(own: Crossing, all: seq<Crossing>)
    requires own.isEntry
    ensures forall x | x in all && !x.isEntry :: x in Allowable(own, all)[1..]
    ensures forall x | x in all && x !in Allowable(own, all) :: x.isEntry
  {
    var r := Allowable(own, all);
    EveryLaneHasClass(own.lane);
    assert r[1..] == Filter(ClassOf(own.lane), all);
  }

  /** A to-destination entry allows no other roundabout or from-destination entry. */
  lemma ToDestExcludesConflictingEntries(own: Crossing, all: seq<Crossing>)
    requires own.isEntry && ClassOf(own.lane) == ToDestClass
    ensures forall x | x in Allowable(own, all)[1..] ::
      !(x.isEntry && (x.lane.IsRoundabout() || x.lane.IsFromDest()))
  {
    assert Allowable(own, all)[1..] == Filter(ToDestClass, all);
  }

  /** An inner-roundabout entry allows no from-destination or outer-roundabout entry; an
      outer-roundabout entry no from-destination or inner-roundabout entry; a from-destination
      entry no roundabout entry. */
  lemma RoundaboutAndFromDestExclusions(own: Crossing, all: seq<Crossing>)
    requires own.isEntry
    ensures ClassOf(own.lane) == InnerClass ==> forall x | x in Allowable(own, all)[1..] ::
      !(x.isEntry && (x.lane.IsFromDest() || x.lane.IsOuterRoundabout()))
    ensures ClassOf(own.lane) == OuterClass ==> forall x | x in Allowable(own, all)[1..] ::
      !(x.isEntry && (x.lane.IsFromDest() || x.lane.IsInnerRoundabout()))
    ensures ClassOf(own.lane) == FromDestClass ==> forall x | x in Allowable(own, all)[1..] ::
      !(x.isEntry && x.lane.IsRoundabout())
  {
    EveryLaneHasClass(own.lane);
    assert Allowable(own, all)[1..] == Filter(ClassOf(own.lane), all);
  }

  /** `lane_intersection_allowable_map[c]`, as the constructor fills it: the allowable crossings
      of the crossing at `c` within its own intersection. */
  function AllowableAt(net: seq<Intersection>, c: Coord): (r: seq<Crossing>)
    ensures FindOwner(net, c).Some? ==> forall x | x in r :: x in net[FindOwner(net, c).value].crossings
  {
    match FindOwner(net, c)
    case None => []
    case Some(i) =>
      var k := FindCrossing(net[i].crossings, c).value;
      var r := Allowable(net[i].crossings[k], net[i].crossings);
      assert r[1..] == if net[i].crossings[k].isEntry then Filter(ClassOf(net[i].crossings[k].lane), net[i].crossings) else [];
      r
  }

  // ---------------------------------------------------------------------------------------
  // Controller state and transitions

  /** The controller's state: the intersections in the order the constructor received them,
      with each intersection's priority queue and `is_free` flag at the same index, and the
      power state of the LED at each crossing coordinate (`true` blocks the crossing). */
  datatype Controller = Controller(
    net: seq<Intersection>,
    queues: seq<seq<Item>>,
    free: seq<bool>,
    leds: map<Coord, bool>)

  /** Each intersection has its queue and its free flag. */
  predicate Shaped(c: Controller) {
    |c.queues| == |c.net| && |c.free| == |c.net|
  }

  /** Every queued item waits at a crossing of its own intersection, and each queue is in pop order. */
  ghost predicate Inv(c: Controller) {
    && WellFormed(c.net)
    && Shaped(c)
    && c.leds.Keys == CrossingCoords(c.net)
    && (forall i | 0 <= i < |c.net| :: Sorted(c.queues[i]))
    && (forall i, it | 0 <= i < |c.net| && it in c.queues[i] :: HasCrossingAt(c.net[i], it.coord))
  }

  /** `MainController.__init__`: an empty queue per intersection and every crossing's LED on. */
  function Init(net: seq<Intersection>): (c: Controller)
    requires WellFormed(net)
    ensures Inv(c) && c.net == net
    ensures forall i | 0 <= i < |net| :: c.queues[i] == [] && c.free[i]
    ensures forall i, k | 0 <= i < |net| && 0 <= k < |net[i].crossings| ::
      net[i].crossings[k].coord in c.leds && c.leds[net[i].crossings[k].coord]
  {
    Controller(net, seq(|net|, _ => []), seq(|net|, _ => true), map x | x in CrossingCoords(net) :: true)
  }

  /** The LED map with every coordinate of `cs` set to `on`. */
  function SetLeds(leds: map<Coord, bool>, cs: set<Coord>, on: bool): (r: map<Coord, bool>)
    ensures r.Keys == leds.Keys
    ensures forall x | x in leds && x in cs :: r[x] == on
    ensures forall x | x in leds && x !in cs :: r[x] == leds[x]
  {
    map x | x in leds :: if x in cs then on else leds[x]
  }

  /** The entry branch of `_handle_intersection_event` at intersection `i`: queue the item and
      light its crossing's LED exactly when the intersection is busy. */
  function Enqueue(c: Controller, i: nat, item: Item): (r: Controller)
    requires Inv(c) && i < |c.net| && HasCrossingAt(c.net[i], item.coord)
    ensures Inv(r) && r.net == c.net
    ensures multiset(r.queues[i]) == multiset(c.queues[i]) + multiset{item}
    ensures forall j | 0 <= j < |c.net| && j != i :: r.queues[j] == c.queues[j]
    ensures r.free == c.free
    ensures !c.free[i] ==> r.leds == c.leds[item.coord := true]
    ensures c.free[i] ==> r.leds == c.leds
  {
    var q := Put(c.queues[i], item);
    assert forall it | it in q :: it == item || it in c.queues[i] by {
      forall it | it in q ensures it == item || it in c.queues[i] {
        assert it in multiset(q);
      }
    }
    assert item.coord in CrossingCoords(c.net) by {
      var k :| 0 <= k < |c.net[i].crossings| && c.net[i].crossings[k].coord == item.coord;
    }
    var leds := if c.free[i] then c.leds else c.leds[item.coord := true];
    c.(queues := c.queues[i := q], leds := leds)
  }

  /** The exit branch of `_handle_intersection_event` at intersection `i`: free it and light
      every LED of it. */
  function Release(c: Controller, i: nat): (r: Controller)
    requires Inv(c) && i < |c.net|
    ensures Inv(r) && r.net == c.net
    ensures r.queues == c.queues
    ensures r.free == c.free[i := true]
    ensures forall x | x in c.leds :: r.leds[x] == (x in CoordsOf(c.net[i]) || c.leds[x])
  {
    c.(free := c.free[i := true], leds := SetLeds(c.leds, CoordsOf(c.net[i]), true))
  }

  /** `_handle_intersection_event`. The person's coordinate must be a crossing (a `KeyError`
      otherwise). An entry queues `(roundabout, time, coordinate)` on that crossing's
      intersection and lights the crossing's LED exactly when the intersection is busy; an exit
      frees the intersection and lights every LED of it. Nothing else changes. */
  function HandleEvent(c: Controller, ev: Event): (r: Result<Controller>)
    requires Inv(c)
    ensures r.Failure? <==> Coord(ev.person.x, ev.person.y) !in CrossingCoords(c.net)
    ensures r.Failure? ==> r.error.KeyError?
    ensures r.Success? ==> Inv(r.value) && r.value.net == c.net
    ensures r.Success? && ev.isEntry ==>
      var i := FindOwner(c.net, Coord(ev.person.x, ev.person.y)).value;
      var item := Item(ev.person.lane.IsRoundabout(), ev.time, Coord(ev.person.x, ev.person.y));
      && multiset(r.value.queues[i]) == multiset(c.queues[i]) + multiset{item}
      && (forall j | 0 <= j < |c.net| && j != i :: r.value.queues[j] == c.queues[j])
      && r.value.free == c.free
      && (!c.free[i] ==> r.value.leds == c.leds[item.coord := true])
      && (c.free[i] ==> r.value.leds == c.leds)
    ensures r.Success? && !ev.isEntry ==>
      var i := FindOwner(c.net, Coord(ev.person.x, ev.person.y)).value;
      && r.value.queues == c.queues
      && r.value.free == c.free[i := true]
      && (forall x | x in c.leds :: r.value.leds[x] == (x in CoordsOf(c.net[i]) || c.leds[x]))
  {
    var coord := Coord(ev.person.x, ev.person.y);
    CrossingCoordsOwned(c.net, coord);
    match FindOwner(c.net, coord)
    case None => Failure(KeyError)
    case Some(i) =>
      if ev.isEntry then Success(Enqueue(c, i, Item(ev.person.lane.IsRoundabout(), ev.time, coord)))
      else Success(Release(c, i))
  }

  /** A grant: the intersection at index `index` admitted the waiting `item`. */
  datatype Grant = Grant(index: nat, item: Item)

  /** A state after dispatching, with the grants made. */
  datatype Dispatched = Dispatched(state: Controller, grants: seq<Grant>)

  /** The number of grants made to the intersection at index `i`. */
  function GrantsTo(gs: seq<Grant>, i: nat): nat {
    if |gs| == 0 then 0 else (if gs[0].index == i then 1 else 0) + GrantsTo(gs[1..], i)
  }

  lemma {:induction false} GrantsToAppendAt(a: seq<Grant>, b: seq<Grant>, i: nat)
    ensures GrantsTo(a + b, i) == GrantsTo(a, i) + GrantsTo(b, i)
    decreases |a|
  {
    if |a| > 0 {
      assert (a + b)[0] == a[0];
      assert (a + b)[1..] == a[1..] + b;
      GrantsToAppendAt(a[1..], b, i);
    } else {
      assert a + b == b;
    }
  }

  /** Grants of two passes add up per intersection. */
  lemma GrantsToAppend(a: seq<Grant>, b: seq<Grant>)
    ensures forall i: nat :: GrantsTo(a + b, i) == GrantsTo(a, i) + GrantsTo(b, i)
  {
    forall i: nat ensures GrantsTo(a + b, i) == GrantsTo(a, i) + GrantsTo(b, i) {
      GrantsToAppendAt(a, b, i);
    }
  }

  /** The coordinates of the allowable crossings of the crossing at `c`: the LEDs `run` switches off. */
  function AllowableCoords(net: seq<Intersection>, c: Coord): (off: set<Coord>)
    ensures FindOwner(net, c).Some? ==> forall x | x in off :: x in CoordsOf(net[FindOwner(net, c).value])
  {
    var off := set a | a in AllowableAt(net, c) :: a.coord;
    assert FindOwner(net, c).Some? ==> forall x | x in off :: x in CoordsOf(net[FindOwner(net, c).value]) by {
      if FindOwner(net, c).Some? {
        var i := FindOwner(net, c).value;
        forall x | x in off ensures x in CoordsOf(net[i]) {
          var a :| a in AllowableAt(net, c) && a.coord == x;
          var k :| 0 <= k < |net[i].crossings| && net[i].crossings[k] == a;
          assert HasCrossingAt(net[i], x);
        }
      }
    }
    off
  }

  /** The LEDs a sequence of grants switches off: the allowable crossings of every granted item. */
  function OffSet(net: seq<Intersection>, gs: seq<Grant>): set<Coord> {
    if |gs| == 0 then {} else AllowableCoords(net, gs[0].item.coord) + OffSet(net, gs[1..])
  }

  lemma {:induction false} OffSetAppend(net: seq<Intersection>, a: seq<Grant>, b: seq<Grant>)
    ensures OffSet(net, a + b) == OffSet(net, a) + OffSet(net, b)
    decreases |a|
  {
    if |a| > 0 {
      assert (a + b)[0] == a[0];
      assert (a + b)[1..] == a[1..] + b;
      OffSetAppend(net, a[1..], b);
    } else {
      assert a + b == b;
    }
  }

  /** The body of the dispatch loop for a free intersection with someone waiting: pop the head
      item, switch off the LEDs of its allowable crossings and mark the intersection busy. */
  function Serve(c: Controller, i: nat): (r: Dispatched)
    requires Shaped(c) && i < |c.net| && |c.queues[i]| > 0 && c.free[i]
    ensures Shaped(r.state) && r.state.net == c.net
    ensures r.grants == [Grant(i, c.queues[i][0])]
    ensures r.state.queues == c.queues[i := c.queues[i][1..]]
    ensures r.state.free == c.free[i := false]
    ensures r.state.leds.Keys == c.leds.Keys
    ensures forall x | x in c.leds :: r.state.leds[x] == (c.leds[x] && x !in AllowableCoords(c.net, c.queues[i][0].coord))
  {
    var item := c.queues[i][0];
    var off := AllowableCoords(c.net, item.coord);
    var s := c.(queues := c.queues[i := c.queues[i][1..]], free := c.free[i := false],
                leds := SetLeds(c.leds, off, false));
    Dispatched(s, [Grant(i, item)])
  }

  /** Serving keeps the state invariant: the popped item is one no waiting item precedes, and
      the LEDs switched off all belong to the served intersection. */
  lemma ServeKeeps(c: Controller, i: nat)
    requires Inv(c) && i < |c.net| && |c.queues[i]| > 0 && c.free[i]
    ensures Inv(Serve(c, i).state)
    ensures forall x | x in c.queues[i] :: !Less(x, c.queues[i][0])
    ensures forall x | x in c.leds && x !in CoordsOf(c.net[i]) :: Serve(c, i).state.leds[x] == c.leds[x]
  {
    var item := c.queues[i][0];
    HeadIsMinimum(c.queues[i]);
    TailSorted(c.queues[i]);
    assert HasCrossingAt(c.net[i], item.coord);
    OwnerUnique(c.net, i, item.coord);
    var s := Serve(c, i).state;
    forall j, it | 0 <= j < |s.net| && it in s.queues[j] ensures HasCrossingAt(s.net[j], it.coord) {
      if j == i {
        assert it in c.queues[i];
      }
    }
  }

  /** One iteration of the dispatch loop in `run`: when the intersection is free and someone
      waits, pop the head item and mark the intersection busy; otherwise change nothing. The
      LEDs of the popped item's allowable crossings go off. */
  function DispatchAt(c: Controller, i: nat): (r: Dispatched)
    requires Shaped(c) && i < |c.net|
    ensures Shaped(r.state) && r.state.net == c.net && r.state.leds.Keys == c.leds.Keys
    ensures forall j | 0 <= j < |c.net| && j != i :: r.state.queues[j] == c.queues[j] && r.state.free[j] == c.free[j]
    ensures !(|c.queues[i]| > 0 && c.free[i]) ==> r == Dispatched(c, [])
    ensures |c.queues[i]| > 0 && c.free[i] ==>
      && r.grants == [Grant(i, c.queues[i][0])]
      && r.state.queues[i] == c.queues[i][1..]
      && !r.state.free[i]
    ensures |c.queues[i]| > 0 && c.free[i] ==> forall x | x in c.leds ::
      r.state.leds[x] == (c.leds[x] && x !in AllowableCoords(c.net, c.queues[i][0].coord))
    ensures forall j: nat | j < |c.net| :: GrantsTo(r.grants, j) == (if j == i && c.free[i] && |c.queues[i]| > 0 then 1 else 0)
  {
    if |c.queues[i]| > 0 && c.free[i] then
      var r := Serve(c, i);
      assert r.grants[1..] == [];
      r
    else Dispatched(c, [])
  }

  /** An iteration switches off exactly the LEDs of the allowable crossings of what it grants. */
  lemma DispatchAtLeds(c: Controller, i: nat)
    requires Shaped(c) && i < |c.net|
    ensures forall x | x in c.leds ::
      DispatchAt(c, i).state.leds[x] == (c.leds[x] && x !in OffSet(c.net, DispatchAt(c, i).grants))
  {
    var r := DispatchAt(c, i);
    if |c.queues[i]| > 0 && c.free[i] {
      assert r.grants[1..] == [];
      assert OffSet(c.net, r.grants) == AllowableCoords(c.net, c.queues[i][0].coord);
    }
  }

  /** An iteration keeps the state invariant, grants an item no other waiting item precedes,
      and never changes an LED outside the intersection. */
  lemma DispatchAtKeeps(c: Controller, i: nat)
    requires Inv(c) && i < |c.net|
    ensures Inv(DispatchAt(c, i).state)
    ensures |c.queues[i]| > 0 && c.free[i] ==> forall x | x in c.queues[i] :: !Less(x, c.queues[i][0])
    ensures forall x | x in c.leds && x !in CoordsOf(c.net[i]) :: DispatchAt(c, i).state.leds[x] == c.leds[x]
  {
    if |c.queues[i]| > 0 && c.free[i] {
      ServeKeeps(c, i);
    }
  }

  /** Every grant admits the head of the queue of an intersection from `i` on. */
  ghost predicate GrantsHeads(c: Controller, i: nat, gs: seq<Grant>)
    requires Shaped(c)
  {
    forall k | 0 <= k < |gs| ::
      && i <= gs[k].index < |c.net| && |c.queues[gs[k].index]| > 0
      && gs[k].item == c.queues[gs[k].index][0]
  }

  /** The grants of iteration `i` followed by grants of heads from `i + 1` on, taken after
      that iteration, are grants of heads from `i` on. */
  lemma HeadsStep(c: Controller, i: nat, later: seq<Grant>)
    requires Shaped(c) && i < |c.net|
    requires GrantsHeads(DispatchAt(c, i).state, i + 1, later)
    ensures GrantsHeads(c, i, DispatchAt(c, i).grants + later)
  {
    var first := DispatchAt(c, i);
    var gs := first.grants + later;
    forall k | 0 <= k < |gs|
      ensures i <= gs[k].index < |c.net| && |c.queues[gs[k].index]| > 0
      ensures gs[k].item == c.queues[gs[k].index][0]
    {
      if k < |first.grants| {
        assert gs[k] == first.grants[k];
      } else {
        assert gs[k] == later[k - |first.grants|];
      }
    }
  }

  /** The dispatch loop over intersections `i ..` in order, collecting the grants. Each
      intersection from `i` on that is free with someone waiting pops the head of its queue and
      becomes busy, and is the only intersection granted, once; every other intersection keeps its
      queue and flag. Exactly the LEDs of the granted items' allowable crossings go off.
      `DispatchFromHeads` states which items are granted. */
  function DispatchFrom(c: Controller, i: nat): (r: Dispatched)
    requires Shaped(c) && i <= |c.net|
    ensures Shaped(r.state) && r.state.net == c.net && r.state.leds.Keys == c.leds.Keys
    ensures forall j | 0 <= j < i :: r.state.queues[j] == c.queues[j] && r.state.free[j] == c.free[j]
    ensures forall j | i <= j < |c.net| ::
      r.state.queues[j] == (if c.free[j] && |c.queues[j]| > 0 then c.queues[j][1..] else c.queues[j])
    ensures forall j | i <= j < |c.net| :: r.state.free[j] == (c.free[j] && |c.queues[j]| == 0)
    ensures forall j: nat | j < |c.net| ::
      GrantsTo(r.grants, j) == (if i <= j && c.free[j] && |c.queues[j]| > 0 then 1 else 0)
    ensures forall x | x in c.leds :: r.state.leds[x] == (c.leds[x] && x !in OffSet(c.net, r.grants))
    decreases |c.net| - i
  {
    if i == |c.net| then Dispatched(c, [])
    else
      var first := DispatchAt(c, i);
      var rest := DispatchFrom(first.state, i + 1);
      GrantsToAppend(first.grants, rest.grants);
      DispatchAtLeds(c, i);
      OffSetAppend(c.net, first.grants, rest.grants);
      Dispatched(rest.state, first.grants + rest.grants)
  }

  /** Every grant of the loop from `i` on admits the head of the queue of its intersection. */
  lemma {:induction false} DispatchFromHeads(c: Controller, i: nat)
    requires Shaped(c) && i <= |c.net|
    ensures GrantsHeads(c, i, DispatchFrom(c, i).grants)
    decreases |c.net| - i
  {
    if i < |c.net| {
      var first := DispatchAt(c, i);
      var rest := DispatchFrom(first.state, i + 1);
      DispatchFromHeads(first.state, i + 1);
      HeadsStep(c, i, rest.grants);
      assert DispatchFrom(c, i).grants == first.grants + rest.grants;
    }
  }

  /** The loop keeps the state invariant. */
  lemma {:induction false} DispatchFromKeeps(c: Controller, i: nat)
    requires Inv(c) && i <= |c.net|
    ensures Inv(DispatchFrom(c, i).state)
    decreases |c.net| - i
  {
    if i < |c.net| {
      DispatchAtKeeps(c, i);
      DispatchFromKeeps(DispatchAt(c, i).state, i + 1);
    }
  }

  /** The dispatch step of `run` over every intersection: each free intersection with someone
      waiting pops the head of its queue for its one grant and becomes busy, the other
      intersections are untouched, exactly the LEDs of the granted items' allowable crossings
      go off, and the invariant is kept. */
  function Dispatch(c: Controller): (r: Dispatched)
    requires Inv(c)
    ensures Inv(r.state) && r.state.net == c.net
    ensures forall j | 0 <= j < |c.net| ::
      r.state.queues[j] == (if c.free[j] && |c.queues[j]| > 0 then c.queues[j][1..] else c.queues[j])
    ensures forall j | 0 <= j < |c.net| :: r.state.free[j] == (c.free[j] && |c.queues[j]| == 0)
    ensures forall j: nat | j < |c.net| :: GrantsTo(r.grants, j) == (if c.free[j] && |c.queues[j]| > 0 then 1 else 0)
    ensures GrantsHeads(c, 0, r.grants)
    ensures forall x | x in c.leds :: r.state.leds[x] == (c.leds[x] && x !in OffSet(c.net, r.grants))
  {
    DispatchFromKeeps(c, 0);
    DispatchFromHeads(c, 0);
    DispatchFrom(c, 0)
  }
}
