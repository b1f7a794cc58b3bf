/** The per-intersection LED owner `LocalController` of util.py. */
module LocalControl {
  import opened Coords
  import opened Wrappers

  /** An LED at a coordinate; `isOn` is its power state (the source's sleep before switching is left out). */
  datatype Led = Led(coord: Coord, isOn: bool)

  /** The LEDs in registration order, and `LED_coord_map` as the index of the LED each coordinate reaches. */
  datatype LocalController = LocalController(leds: seq<Led>, coordMap: map<Coord, nat>) {

    /** The map reaches, for every registered coordinate, the last LED registered there. */
    ghost predicate Valid() {
      && (forall i | 0 <= i < |leds| :: leds[i].coord in coordMap)
      && (forall c | c in coordMap :: IsLastAt(leds, c, coordMap[c]))
    }

    /** LED `i` is the one its coordinate reaches, so power operations can switch it. */
    ghost predicate Reachable(i: int)
      requires Valid()
    {
      0 <= i < |leds| && coordMap[leds[i].coord] == i
    }
  }

  /** Index `k` holds the last LED at `c`. */
  ghost predicate IsLastAt(leds: seq<Led>, c: Coord, k: int) {
    && 0 <= k < |leds| && leds[k].coord == c
    && forall j | k < j < |leds| :: leds[j].coord != c
  }

  /** The loop of the constructor: each LED overwrites the entry of its coordinate. */
  function CoordMap(leds: seq<Led>): (m: map<Coord, nat>)
    ensures forall i | 0 <= i < |leds| :: leds[i].coord in m
    ensures forall c | c in m :: IsLastAt(leds, c, m[c])
  {
    if |leds| == 0 then map[]
    else
      var n := |leds| - 1;
      var prev := CoordMap(leds[..n]);
      assert forall c | c in prev && c != leds[n].coord :: IsLastAt(leds, c, prev[c]) by {
        forall c | c in prev && c != leds[n].coord ensures IsLastAt(leds, c, prev[c]) {
          assert IsLastAt(leds[..n], c, prev[c]);
        }
      }
      assert forall i | 0 <= i < n :: leds[i].coord in prev by {
        forall i | 0 <= i < n ensures leds[i].coord in prev {
          assert leds[..n][i] == leds[i];
        }
      }
      prev[leds[n].coord := n]
  }

  /** `LocalController(LEDs)`. */
  function NewController(leds: seq<Led>): (lc: LocalController)
    ensures lc.Valid() && lc.leds == leds
  {
    LocalController(leds, CoordMap(leds))
  }

  /** `has_LED`. */
  predicate HasLed(lc: LocalController, c: Coord) {
    c in lc.coordMap
  }

  /** `has_LEDs`: `all` over the coordinates. */
  function HasLeds(lc: LocalController, cs: seq<Coord>): (r: bool)
    ensures r <==> forall i | 0 <= i < |cs| :: cs[i] in lc.coordMap
    ensures |cs| == 0 ==> r
  {
    if |cs| == 0 then true else HasLed(lc, cs[0]) && HasLeds(lc, cs[1..])
  }

  /** Owned coordinates are exactly the coordinates of the registered LEDs. */
  lemma HasLedIffRegistered(leds: seq<Led>, c: Coord)
    ensures HasLed(NewController(leds), c) <==> exists i :: 0 <= i < |leds| && leds[i].coord == c
  {
    var lc := NewController(leds);
    if HasLed(lc, c) {
      assert IsLastAt(leds, c, lc.coordMap[c]);
    }
  }

  /** `power_LED(coord, power_on)`: switch the LED the coordinate reaches; an unowned coordinate changes nothing. */
  function PowerLed(lc: LocalController, c: Coord, on: bool): (r: LocalController)
    requires lc.Valid()
    ensures r.Valid() && r.coordMap == lc.coordMap && |r.leds| == |lc.leds|
    ensures !HasLed(lc, c) ==> r == lc
    ensures HasLed(lc, c) ==> r.leds[lc.coordMap[c]] == Led(c, on)
    ensures forall j | 0 <= j < |lc.leds| && !(HasLed(lc, c) && j == lc.coordMap[c]) :: r.leds[j] == lc.leds[j]
  {
    if HasLed(lc, c) then
      var k := lc.coordMap[c];
      var r := lc.(leds := lc.leds[k := Led(c, on)]);
      assert forall d | d in r.coordMap :: IsLastAt(r.leds, d, r.coordMap[d]) by {
        forall d | d in r.coordMap ensures IsLastAt(r.leds, d, r.coordMap[d]) {
          assert IsLastAt(lc.leds, d, lc.coordMap[d]);
        }
      }
      r
    else lc
  }

  /** The last position of `c` in `cs`. */
  function LastIndex(cs: seq<Coord>, c: Coord): (k: nat)
    requires c in cs
    ensures k < |cs| && cs[k] == c
    ensures forall j | k < j < |cs| :: cs[j] != c
  {
    if cs[|cs| - 1] == c then |cs| - 1 else LastIndex(cs[..|cs| - 1], c)
  }

  /** The loop of `power_LEDs`, after its length check. */
  function ApplyAll(lc: LocalController, cs: seq<Coord>, states: seq<bool>): (r: LocalController)
    requires lc.Valid() && |cs| == |states|
    ensures r.Valid() && r.coordMap == lc.coordMap && |r.leds| == |lc.leds|
  {
    if |cs| == 0 then lc
    else
      var n := |cs| - 1;
      PowerLed(ApplyAll(lc, cs[..n], states[..n]), cs[n], states[n])
  }

  /** After the loop, an LED that one of the coordinates reaches holds the state paired with the
      last occurrence of its coordinate; every other LED is as before. */
  lemma {:induction false} ApplyAllResult(lc: LocalController, cs: seq<Coord>, states: seq<bool>)
    requires lc.Valid() && |cs| == |states|
    ensures forall j | 0 <= j < |lc.leds| ::
      ApplyAll(lc, cs, states).leds[j] ==
        if lc.Reachable(j) && lc.leds[j].coord in cs
        then Led(lc.leds[j].coord, states[LastIndex(cs, lc.leds[j].coord)])
        else lc.leds[j]
  {
    if |cs| > 0 {
      var n := |cs| - 1;
      var prev := ApplyAll(lc, cs[..n], states[..n]);
      ApplyAllResult(lc, cs[..n], states[..n]);
      forall j | 0 <= j < |lc.leds|
        ensures ApplyAll(lc, cs, states).leds[j] ==
          if lc.Reachable(j) && lc.leds[j].coord in cs
          then Led(lc.leds[j].coord, states[LastIndex(cs, lc.leds[j].coord)])
          else lc.leds[j]
      {
        var d := lc.leds[j].coord;
        if lc.Reachable(j) && d == cs[n] {
          assert LastIndex(cs, d) == n;
        } else if lc.Reachable(j) && d in cs {
          assert d in cs[..n] by {
            var k := LastIndex(cs, d);
            assert cs[..n][k] == d;
          }
          assert LastIndex(cs, d) == LastIndex(cs[..n], d);
        } else if lc.Reachable(j) {
          assert d !in cs[..n];
        }
      }
    }
  }

  /** `power_LEDs(coords, power_states)`: a `ValueError` when the lists differ in length, before any
      LED is touched; otherwise each LED a coordinate reaches ends in the state paired with that
      coordinate's last occurrence, and no other LED changes. */
  function PowerLeds(lc: LocalController, cs: seq<Coord>, states: seq<bool>): (r: Result<LocalController>)
    requires lc.Valid()
    ensures r.Failure? <==> |cs| != |states|
    ensures r.Failure? ==> r.error.ValueError?
    ensures r.Success? ==> r.value.Valid() && r.value.coordMap == lc.coordMap && |r.value.leds| == |lc.leds|
    ensures r.Success? ==> forall j | 0 <= j < |lc.leds| ::
      r.value.leds[j] ==
        if lc.Reachable(j) && lc.leds[j].coord in cs
        then Led(lc.leds[j].coord, states[LastIndex(cs, lc.leds[j].coord)])
        else lc.leds[j]
  {
    if |states| != |cs| then
      Failure(ValueError("LED coordinates and power states must be equal length"))
    else
      ApplyAllResult(lc, cs, states);
      Success(ApplyAll(lc, cs, states))
  }
}
