/** Labelled lanes of the road network (`Lane` in util.py). */
module Lanes {
  import opened Wrappers

  /** The fifteen lane labels the network accepts. */
  const Labels: set<string> := {
    "1in", "1out", "2in", "2out", "3in", "3out", "4in", "4out",
    "5in", "5out", "6in", "6out", "7in", "innerRing", "outerRing"
  }

  /** Python's `sub in s` on strings: `sub` occurs in `s` at some position. */
  ghost predicate OccursAt(sub: string, s: string, i: int) {
    0 <= i && i + |sub| <= |s| && s[i..i + |sub|] == sub
  }

  /** Executable substring test, scanning left to right. */
  function Contains(s: string, sub: string): (r: bool)
    ensures r <==> exists i :: OccursAt(sub, s, i)
    decreases |s|
  {
    if |sub| > |s| then
      assert forall i :: !OccursAt(sub, s, i);
      false
    else if s[..|sub|] == sub then
      assert OccursAt(sub, s, 0);
      true
    else
      var rest := Contains(s[1..], sub);
      ContainsShift(s, sub);
      rest
  }

  /** An occurrence in `s` that is not at position 0 is an occurrence in `s[1..]`, and back. */
  lemma ContainsShift(s: string, sub: string)
    requires |sub| <= |s| && s[..|sub|] != sub
    ensures (exists i :: OccursAt(sub, s, i)) <==> (exists j :: OccursAt(sub, s[1..], j))
  {
    if exists i :: OccursAt(sub, s, i) {
      var i :| OccursAt(sub, s, i);
      assert i != 0;
      assert s[1..][i - 1..i - 1 + |sub|] == s[i..i + |sub|];
      assert OccursAt(sub, s[1..], i - 1);
    }
    if exists j :: OccursAt(sub, s[1..], j) {
      var j :| OccursAt(sub, s[1..], j);
      assert s[j + 1..j + 1 + |sub|] == s[1..][j..j + |sub|];
      assert OccursAt(sub, s, j + 1);
    }
  }

  /** A constructed lane: its label and the flags util.py derives from it. */
  datatype Lane = Lane(
    name: string,
    isInnerRoundabout: bool,
    isOuterRoundabout: bool,
    isRoundabout: bool,
    isToDest: bool,
    isFromDest: bool,
    isDest: bool)

  /** `Lane(label)`: a `ValueError` for a label outside `Labels`, otherwise the flags by substring tests. */
  function NewLane(lbl: string): (r: Result<Lane>)
    ensures r.Failure? <==> lbl !in Labels
    ensures r.Failure? ==> r.error.ValueError?
    ensures r.Success? ==> r.value.name == lbl
    ensures r.Success? ==> (r.value.isInnerRoundabout <==> lbl == "innerRing")
    ensures r.Success? ==> (r.value.isOuterRoundabout <==> lbl == "outerRing")
    ensures r.Success? ==> (r.value.isRoundabout <==> lbl == "innerRing" || lbl == "outerRing")
    ensures r.Success? ==> (r.value.isToDest <==> exists i :: OccursAt("in", lbl, i))
    ensures r.Success? ==> (r.value.isFromDest <==> exists i :: OccursAt("out", lbl, i))
    ensures r.Success? ==> (r.value.isDest <==> r.value.isToDest || r.value.isFromDest)
  {
    if lbl !in Labels then
      Failure(ValueError("Lane label is not valid"))
    else
      var inner := lbl == "innerRing";
      var outer := lbl == "outerRing";
      var toDest := Contains(lbl, "in");
      var fromDest := Contains(lbl, "out");
      Success(Lane(lbl, inner, outer, inner || outer, toDest, fromDest, toDest || fromDest))
  }

  /** `Lane.get_allowable_labels()`: exactly the labels a lane can be built from. */
  function AllowableLabels(): (r: set<string>)
    ensures forall lbl :: lbl in r <==> NewLane(lbl).Success?
    ensures "innerRing" in r && "outerRing" in r
  {
    Labels
  }

  /** `innerRing` is a roundabout lane leading to a destination, and not away from one. */
  lemma InnerRingFlags()
    ensures NewLane("innerRing").Success?
    ensures var l := NewLane("innerRing").value;
      l.isInnerRoundabout && l.isRoundabout && l.isToDest && !l.isFromDest && l.isDest
  {
    assert OccursAt("in", "innerRing", 0);
    forall i | 0 <= i <= 6
      ensures !OccursAt("out", "innerRing", i)
    {
      assert "innerRing"[i] != 'o';
    }
  }

  /** `outerRing` is a roundabout lane leading away from a destination; because "Ring"
      contains "in", the substring rule also marks it as leading to one. */
  lemma OuterRingFlags()
    ensures NewLane("outerRing").Success?
    ensures var l := NewLane("outerRing").value;
      l.isOuterRoundabout && l.isRoundabout && l.isFromDest && l.isToDest && l.isDest
  {
    assert OccursAt("out", "outerRing", 0);
    assert OccursAt("in", "outerRing", 6);
  }

  /** Every accepted label leads to or away from a destination. */
  lemma EveryLaneIsDest(lbl: string)
    requires lbl in Labels
    ensures NewLane(lbl).Success? && NewLane(lbl).value.isDest
  {
    if lbl == "innerRing" {
      InnerRingFlags();
    } else if lbl == "outerRing" {
      OuterRingFlags();
    } else if lbl in {"1in", "2in", "3in", "4in", "5in", "6in", "7in"} {
      assert OccursAt("in", lbl, 1);
    } else {
      assert OccursAt("out", lbl, 1);
    }
  }
}
