/** Sequences of controller transitions: events from the detection queue interleaved with
    dispatch steps, as the `run` loop of main_controller.py performs them. */
module ControllerRuns {
  import opened Coords
  import opened Wrappers
  import opened QueueItems
  import opened MainController

  /** One transition: an intersection event, or one pass of the dispatch loop. */
  datatype Step = Signal(ev: Event) | Tick

  /** The step is an event at a coordinate where the network has no crossing. */
  ghost predicate Stray(net: seq<Intersection>, s: Step) {
    s.Signal? && Coord(s.ev.person.x, s.ev.person.y) !in CrossingCoords(net)
  }

  /** Applies the steps in order; an event at a coordinate that is not a crossing stops the run
      with its `KeyError`. So a run fails exactly when one of its events is at such a coordinate. */
  function Run(c: Controller, steps: seq<Step>): (r: Result<Dispatched>)
    requires Inv(c)
    ensures r.Success? ==> Inv(r.value.state) && r.value.state.net == c.net
    ensures r.Failure? <==> exists k | 0 <= k < |steps| :: Stray(c.net, steps[k])
    ensures r.Failure? ==> r.error.KeyError?
    decreases |steps|
  {
    if |steps| == 0 then Success(Dispatched(c, []))
    else
      assert forall k | 1 <= k < |steps| :: steps[k] == steps[1..][k - 1];
      assert (exists k | 0 <= k < |steps| :: Stray(c.net, steps[k])) <==>
        Stray(c.net, steps[0]) || exists k | 0 <= k < |steps[1..]| :: Stray(c.net, steps[1..][k]) by {
        if exists k | 0 <= k < |steps[1..]| :: Stray(c.net, steps[1..][k]) {
          var k :| 0 <= k < |steps[1..]| && Stray(c.net, steps[1..][k]);
          assert Stray(c.net, steps[k + 1]);
        }
      }
      match steps[0]
      case Signal(ev) =>
        var next :- HandleEvent(c, ev);
        Run(next, steps[1..])
      case Tick =>
        var d := Dispatch(c);
        var rest :- Run(d.state, steps[1..]);
        Success(Dispatched(rest.state, d.grants + rest.grants))
  }

  /** The dispatch step grants each free intersection with a waiting person once, and no other. */
  lemma DispatchGrants(c: Controller, j: nat)
    requires Inv(c) && j < |c.net|
    ensures GrantsTo(Dispatch(c).grants, j) == (if c.free[j] && |c.queues[j]| > 0 then 1 else 0)
    ensures GrantsTo(Dispatch(c).grants, j) == 1 ==> !Dispatch(c).state.free[j]
    ensures GrantsTo(Dispatch(c).grants, j) == 0 ==> Dispatch(c).state.free[j] == c.free[j]
  {
  }

  /** No step of `steps` is an exit event at a crossing of the intersection at `j`. */
  ghost predicate NoExitAt(net: seq<Intersection>, steps: seq<Step>, j: nat) {
    forall k | 0 <= k < |steps| && steps[k].Signal? && !steps[k].ev.isEntry ::
      FindOwner(net, Coord(steps[k].ev.person.x, steps[k].ev.person.y)) != Some(j)
  }

  /** Between exit events an intersection is granted at most once: without an exit at `j`, the
      grants to `j` plus its final free flag never exceed its initial free flag. So a busy
      intersection is granted nothing, and a free one at most once. */
  lemma {:induction false} AtMostOneGrantBetweenExits(c: Controller, steps: seq<Step>, j: nat)
    requires Inv(c) && j < |c.net|
    requires NoExitAt(c.net, steps, j)
    requires Run(c, steps).Success?
    ensures var r := Run(c, steps).value;
      GrantsTo(r.grants, j) + (if r.state.free[j] then 1 else 0) <= (if c.free[j] then 1 else 0)
    decreases |steps|
  {
    if |steps| > 0 {
      assert NoExitAt(c.net, steps[1..], j) by {
        forall k | 0 <= k < |steps[1..]| && steps[1..][k].Signal? && !steps[1..][k].ev.isEntry
          ensures FindOwner(c.net, Coord(steps[1..][k].ev.person.x, steps[1..][k].ev.person.y)) != Some(j)
        {
          assert steps[1..][k] == steps[k + 1];
        }
      }
      match steps[0]
      case Signal(ev) =>
        var next := HandleEvent(c, ev).value;
        assert next.free[j] == c.free[j] by {
          if !ev.isEntry {
            assert steps[0].Signal? && !steps[0].ev.isEntry;
          }
        }
        AtMostOneGrantBetweenExits(next, steps[1..], j);
      case Tick =>
        var d := Dispatch(c);
        DispatchGrants(c, j);
        var rest := Run(d.state, steps[1..]);
        assert rest.Success?;
        assert Run(c, steps).value == Dispatched(rest.value.state, d.grants + rest.value.grants);
        AtMostOneGrantBetweenExits(d.state, steps[1..], j);
        GrantsToAppend(d.grants, rest.value.grants);
    }
  }
}
