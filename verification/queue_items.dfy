/** `IntersectionQueueItem` and the priority queue of waiting entries (main_controller.py). */
module QueueItems {
  import opened Coords

  /** A waiting entry: whether the person came from a roundabout lane, when they were seen,
      and the lane crossing they wait at. Detection times are abstract ordered timestamps. */
  datatype Item = Item(isRoundabout: bool, time: int, coord: Coord)

  /** The first component of `tuple_repr`, `int(not is_roundabout)`. */
  function Rank(it: Item): (r: int)
    ensures r == 0 <==> it.isRoundabout
    ensures r == 1 <==> !it.isRoundabout
  {
    if it.isRoundabout then 0 else 1
  }

  /** `__lt__`: Python's lexicographic `<` on `(rank, time, (x, y))`. */
  predicate Less(a: Item, b: Item) {
    || Rank(a) < Rank(b)
    || (Rank(a) == Rank(b) && a.time < b.time)
    || (Rank(a) == Rank(b) && a.time == b.time && CoordLess(a.coord, b.coord))
  }

  /** `__eq__`: equality of the tuples. */
  predicate Same(a: Item, b: Item) {
    Rank(a) == Rank(b) && a.time == b.time && a.coord == b.coord
  }

  /** `__gt__`: Python's lexicographic `>` on the tuples. */
  predicate Greater(a: Item, b: Item) {
    || Rank(a) > Rank(b)
    || (Rank(a) == Rank(b) && a.time > b.time)
    || (Rank(a) == Rank(b) && a.time == b.time && CoordLess(b.coord, a.coord))
  }

  /** Exactly one of `<`, `==`, `>` holds between two items; `==` is item equality and `>` is `<` reversed. */
  lemma Trichotomy(a: Item, b: Item)
    ensures Less(a, b) || Same(a, b) || Greater(a, b)
    ensures !(Less(a, b) && Same(a, b)) && !(Less(a, b) && Greater(a, b)) && !(Same(a, b) && Greater(a, b))
    ensures Same(a, b) <==> a == b
    ensures Greater(a, b) <==> Less(b, a)
  {
  }

  /** An item from a roundabout lane precedes every other item, whatever the detection times. */
  lemma RoundaboutFirst(a: Item, b: Item)
    requires a.isRoundabout && !b.isRoundabout
    ensures Less(a, b) && !Less(b, a)
  {
  }

  /** Items with the same roundabout flag are ordered by detection time, then by coordinate. */
  lemma SameFlagOrder(a: Item, b: Item)
    requires a.isRoundabout == b.isRoundabout
    ensures Less(a, b) <==> a.time < b.time || (a.time == b.time && CoordLess(a.coord, b.coord))
  {
  }

  lemma LessTransitive(a: Item, b: Item, c: Item)
    requires Less(a, b) && Less(b, c)
    ensures Less(a, c)
  {
  }

  /** A queue in heap-pop order: no item is preceded by one it is less than. */
  ghost predicate Sorted(q: seq<Item>) {
    forall i, j | 0 <= i < j < |q| :: !Less(q[j], q[i])
  }

  /** An item no element of a sorted queue is less than can go in front of it. */
  lemma ConsSorted(x: Item, s: seq<Item>)
    requires Sorted(s) && forall j | 0 <= j < |s| :: !Less(s[j], x)
    ensures Sorted([x] + s)
  {
    var r := [x] + s;
    forall i, j | 0 <= i < j < |r| ensures !Less(r[j], r[i]) {
      assert r[j] == s[j - 1];
      if i > 0 {
        assert r[i] == s[i - 1];
      }
    }
  }

  /** An item not less than the head of a sorted queue is not less than any later element either. */
  lemma BelowHead(q: seq<Item>, it: Item)
    requires Sorted(q) && |q| > 0 && !Less(q[0], it)
    ensures forall j | 0 <= j < |q| :: !Less(q[j], it)
  {
    forall j | 0 < j < |q| ensures !Less(q[j], it) {
      Trichotomy(q[j], it);
      Trichotomy(q[0], it);
      Trichotomy(q[0], q[j]);
    }
  }

  /** Inserting an item the head is less than into the tail keeps the head first. */
  lemma HeadStaysFirst(q: seq<Item>, it: Item, rest: seq<Item>)
    requires Sorted(q) && |q| > 0 && Less(q[0], it)
    requires multiset(rest) == multiset(q[1..]) + multiset{it}
    ensures forall j | 0 <= j < |rest| :: !Less(rest[j], q[0])
  {
    forall j | 0 <= j < |rest| ensures !Less(rest[j], q[0]) {
      var x := rest[j];
      assert x in multiset(rest);
      if x != it {
        assert x in multiset(q[1..]);
        var k :| 0 <= k < |q[1..]| && q[1..][k] == x;
        assert q[k + 1] == x;
      } else {
        Trichotomy(q[0], it);
      }
    }
  }

  /** `PriorityQueue.put`: insert keeping the pop order. */
  function Put(q: seq<Item>, it: Item): (r: seq<Item>)
    requires Sorted(q)
    ensures Sorted(r)
    ensures multiset(r) == multiset(q) + multiset{it}
    ensures |r| == |q| + 1
  {
    if |q| == 0 then [it]
    else if !Less(q[0], it) then
      BelowHead(q, it);
      ConsSorted(it, q);
      [it] + q
    else
      var rest := Put(q[1..], it);
      assert q == [q[0]] + q[1..];
      HeadStaysFirst(q, it, rest);
      ConsSorted(q[0], rest);
      [q[0]] + rest
  }

  /** `PriorityQueue.get` on a non-empty queue yields an item no other queued item is less than. */
  lemma HeadIsMinimum(q: seq<Item>)
    requires Sorted(q) && |q| > 0
    ensures forall x | x in q :: !Less(x, q[0])
  {
    forall x | x in q ensures !Less(x, q[0]) {
      var j :| 0 <= j < |q| && q[j] == x;
      if j == 0 {
        Trichotomy(x, x);
      }
    }
  }

  /** What remains after `get` is still in pop order. */
  lemma TailSorted(q: seq<Item>)
    requires Sorted(q) && |q| > 0
    ensures Sorted(q[1..])
  {
  }
}
