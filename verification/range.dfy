/** The hardwired assignment of sources to nodes: `_check_in_range` of ccnl_helper.c. */
module Range {
  import opened Common

  /** `_check_in_range`, with the wrap-around of its unsigned arithmetic. */
  predicate CheckInRange(start: nat, val: nat, interval: nat, max: nat) {
    if start > val then ((max - start) % TWO32 + val) % TWO32 < interval
    else val - start < interval
  }

  /** One of the `max` ids from `lo` on. */
  predicate IsId(lo: nat, max: nat, id: int) {
    lo <= id < lo + max <= TWO32 && max < TWO32
  }

  /** The steps from `start` to `val` on the circle of ids. */
  function Steps(start: int, val: int, max: nat): int {
    if val >= start then val - start else val - start + max
  }

  lemma ModuloOnce(x: int, y: nat, z: nat)
    requires -TWO32 < x < TWO32 && x + y == z < TWO32
    ensures (x % TWO32 + y) % TWO32 == z
  {}

  /** The test is a circular interval: it accepts the ids fewer than `interval` steps from `start`. */
  lemma InRangeIff(lo: nat, max: nat, interval: nat, start: nat, val: nat)
    requires IsId(lo, max, start) && IsId(lo, max, val)
    ensures 0 <= Steps(start, val, max) < max
    ensures CheckInRange(start, val, interval, max) <==> Steps(start, val, max) < interval
  {
    if start > val {
      ModuloOnce(max - start, val, val - start + max);
    }
  }

  /** What the wrap-around makes of any 32-bit arguments: ids more than `max` apart count the steps round 2^32. */
  lemma InRangeOfAny(start: u32, val: u32, interval: u32, max: u32)
    ensures CheckInRange(start, val, interval, max) <==>
            interval > if start <= val then val - start
                       else if start <= val + max then val + max - start
                       else TWO32 + val + max - start
  {}

  /** The sources that node `start` stores, and the nodes that store source `val`. */
  ghost function Sources(lo: nat, max: nat, interval: nat, start: nat): set<nat> {
    set v | lo <= v < lo + max && CheckInRange(start, v, interval, max)
  }

  ghost function Nodes(lo: nat, max: nat, interval: nat, val: nat): set<nat> {
    set s | lo <= s < lo + max && CheckInRange(s, val, interval, max)
  }

  /** The ids fewer than `k` steps after `id`, and before it. */
  ghost function Ahead(lo: nat, max: nat, k: nat, id: nat): set<nat> {
    set v | lo <= v < lo + max && Steps(id, v, max) < k
  }

  ghost function Behind(lo: nat, max: nat, k: nat, id: nat): set<nat> {
    set s | lo <= s < lo + max && Steps(s, id, max) < k
  }

  function Least(a: nat, b: nat): nat { if a < b then a else b }

  predicate Between(from: nat, v: nat, to: nat) { from <= v < to }

  ghost function Interval(from: nat, to: nat): set<nat> { set v | from <= v < to && Between(from, v, to) }

  lemma {:induction false} SizeOfInterval(from: nat, to: nat)
    ensures |Interval(from, to)| == if from <= to then to - from else 0
  {
    if from < to {
      SizeOfInterval(from, to - 1);
      assert Interval(from, to) == Interval(from, to - 1) + {to - 1};
    } else {
      assert Interval(from, to) == {};
    }
  }

  /** The size of a union of two disjoint intervals. */
  lemma SizeOfTwo(a: nat, b: nat, c: nat, d: nat)
    requires a <= b <= c <= d
    ensures |Interval(a, b) + Interval(c, d)| == b - a + d - c
  {
    SizeOfInterval(a, b);
    SizeOfInterval(c, d);
    assert Interval(a, b) !! Interval(c, d);
  }

  lemma SizeAhead(lo: nat, max: nat, k: nat, id: nat)
    requires lo <= id < lo + max
    ensures |Ahead(lo, max, k, id)| == Least(k, max)
  {
    var wrapped := if id + k < lo + max then lo else if k > max then id else id + k - max;
    var end := Least(id + k, lo + max);
    SizeOfTwo(lo, wrapped, id, end);
    assert Ahead(lo, max, k, id) == Interval(lo, wrapped) + Interval(id, end);
  }

  /** The two pieces of Behind, for at most all ids. */
  lemma BehindIs(lo: nat, max: nat, k: nat, id: nat)
    requires lo <= id < lo + max && k <= max
    ensures k <= id + 1 - lo ==> Behind(lo, max, k, id) == Interval(id + 1 - k, id + 1)
    ensures k > id + 1 - lo ==> Behind(lo, max, k, id) == Interval(lo, id + 1) + Interval(id + 1 + max - k, lo + max)
  {}

  lemma BehindAll(lo: nat, max: nat, k: nat, id: nat)
    requires lo <= id < lo + max && k > max
    ensures Behind(lo, max, k, id) == Behind(lo, max, max, id)
  {
    forall s | lo <= s < lo + max ensures Steps(s, id, max) < max {}
    hide Steps;
  }

  lemma SizeBehindAtMostAll(lo: nat, max: nat, k: nat, id: nat)
    requires lo <= id < lo + max && k <= max
    ensures |Behind(lo, max, k, id)| == k
  {
    hide *;
    BehindIs(lo, max, k, id);
    if k <= id + 1 - lo {
      SizeOfInterval(id + 1 - k, id + 1);
    } else {
      SizeOfTwo(lo, id + 1, id + 1 + max - k, lo + max);
    }
  }

  lemma SizeBehind(lo: nat, max: nat, k: nat, id: nat)
    requires lo <= id < lo + max
    ensures |Behind(lo, max, k, id)| == Least(k, max)
  {
    SizeBehindAtMostAll(lo, max, Least(k, max), id);
    if k > max {
      BehindAll(lo, max, k, id);
    }
    hide Behind;
  }

  /** Every node stores exactly `interval` sources, or all of them if there are fewer. */
  lemma SourcesPerNode(lo: nat, max: nat, interval: nat, start: nat)
    requires IsId(lo, max, start)
    ensures |Sources(lo, max, interval, start)| == Least(interval, max)
  {
    forall v | lo <= v < lo + max
      ensures CheckInRange(start, v, interval, max) <==> Steps(start, v, max) < interval
    {
      InRangeIff(lo, max, interval, start, v);
    }
    hide CheckInRange, Steps;
    SizeAhead(lo, max, interval, start);
    assert Sources(lo, max, interval, start) == Ahead(lo, max, interval, start);
  }

  /** Every source is stored at exactly `interval` nodes, or at all of them if there are fewer. */
  lemma NodesPerSource(lo: nat, max: nat, interval: nat, val: nat)
    requires IsId(lo, max, val)
    ensures |Nodes(lo, max, interval, val)| == Least(interval, max)
  {
    forall s | lo <= s < lo + max
      ensures CheckInRange(s, val, interval, max) <==> Steps(s, val, max) < interval
    {
      InRangeIff(lo, max, interval, s, val);
    }
    hide CheckInRange, Steps;
    SizeBehind(lo, max, interval, val);
    assert Nodes(lo, max, interval, val) == Behind(lo, max, interval, val);
  }

  /** With the interval of one less than the capacity that the caller passes, the sources assigned to a
      node fit its store with an entry to spare, and its own is among them. */
  lemma SourcesFit(lo: nat, max: nat, capacity: nat, start: nat)
    requires IsId(lo, max, start) && capacity > 1
    ensures |Sources(lo, max, capacity - 1, start)| < capacity
    ensures start in Sources(lo, max, capacity - 1, start)
  {
    SourcesPerNode(lo, max, capacity - 1, start);
  }
}
