/** The rotation of deputies by rank: the second timer of dow.c, `dow_sleep` and `dow_takeover`,
    for a group of nodes that start together and hand over instantaneously. */
module Rotation {
  import opened Common

  /** DOW_Y, the seconds of a shift, and SEC_IN_USEC. */
  const Y := 24
  const SEC := 1_000_000

  /** What the timer of a node works with: its state (deputy or inactive), `dow_period_counter`,
      `_sleep_period` and `_last_deputy_ts`. */
  datatype NodeState = NodeState(deputy: bool, counter: nat, period: nat, last: nat)

  /** `xtimer_now()`, `t` seconds after the start at `start`. */
  function Clock(start: nat, t: nat): nat { (start + t * SEC) % TWO32 }

  /** `_last_deputy_ts + (_sleep_period * SEC_IN_USEC)` in 32 bits. */
  function Deadline(x: NodeState): nat { (x.last + x.period * SEC) % TWO32 }

  function Decremented(counter: nat): nat { if counter == 0 then TWO32 - 1 else counter - 1 }

  /** The branch of DOW_MSG_SECOND that finds the node late and cuts its sleep short. */
  predicate Late(x: NodeState, start: nat, t: nat) {
    !x.deputy && Clock(start, t) >= Deadline(x) && Decremented(x.counter) > 0
  }

  predicate TakesOver(x: NodeState, start: nat, t: nat) {
    !x.deputy && (Late(x, start, t) || Decremented(x.counter) == 0)
  }

  /** `dow_sleep`, whose argument is eight bits wide. */
  function Asleep(x: NodeState, periods: nat): NodeState {
    NodeState(false, periods % 256 * Y, periods % 256 * Y, x.last)
  }

  /** Eight bits of shifts of 24 seconds. With 256 shifts the counter starts at 0, and its first decrement
      wraps it round: the node takes over only when it is found late. */
  lemma SleepIsEightBits(x: NodeState, periods: nat, start: nat, t: nat)
    ensures Asleep(x, periods + 256) == Asleep(x, periods)
    ensures periods < 256 ==> Asleep(x, periods).counter == Asleep(x, periods).period == 24 * periods
    ensures TakesOver(Asleep(x, 256), start, t) <==> (start + t * 1_000_000) % TWO32 >= x.last % TWO32
  {}

  class Timer {
    var x: NodeState

    constructor ()
      ensures x == NodeState(false, 0, 0, 0)
    {
      x := NodeState(false, 0, 0, 0);
    }

    /** DOW_MSG_SECOND. */
    method OnSecond(start: nat, t: nat) returns (takeover: bool)
      requires !x.deputy
      modifies this
      ensures takeover == TakesOver(old(x), start, t)
      ensures x == if takeover then NodeState(true, 0, old(x).period, Clock(start, t))
                   else old(x).(counter := Decremented(old(x).counter))
    {
      var counter := Decremented(x.counter);
      if Clock(start, t) >= (x.last + x.period * SEC) % TWO32 {
        if counter > 0 {
          counter := 0;
        }
      }
      takeover := counter == 0;
      x := x.(counter := counter);
      if takeover {
        x := x.(last := Clock(start, t), deputy := true);
      }
    }

    method Sleep(periods: nat)
      modifies this
      ensures x == Asleep(old(x), periods)
    {
      x := NodeState(false, periods % 256 * Y, x.period, x.last);
      x := x.(period := x.counter);
    }
  }

  /** The state of the group at the start: rank 0 is deputy, the others sleep as many shifts as
      their rank says. `starts` are the clocks of the nodes at that time. */
  function Initially(starts: seq<nat>, r: nat): NodeState
    requires r < |starts|
  {
    if r == 0 then NodeState(true, 0, 0, 0) else Asleep(NodeState(false, 0, 0, Clock(starts[r], 0)), r)
  }

  predicate SomeTakesOver(starts: seq<nat>, xs: seq<NodeState>, t: nat)
    requires |xs| == |starts|
  {
    exists r :: 0 <= r < |xs| && TakesOver(xs[r], starts[r], t)
  }

  /** A node's state after second `t`: a deputy goes to sleep when another node has taken over. */
  function Next(starts: seq<nat>, xs: seq<NodeState>, t: nat, r: nat): NodeState
    requires r < |xs| == |starts|
  {
    var x := xs[r];
    if TakesOver(x, starts[r], t) then NodeState(true, 0, x.period, Clock(starts[r], t))
    else if x.deputy then (if SomeTakesOver(starts, xs, t) then Asleep(x, |xs| - 1) else x)
    else x.(counter := Decremented(x.counter))
  }

  function Group(starts: seq<nat>, t: nat): (xs: seq<NodeState>)
    ensures |xs| == |starts|
  {
    if t == 0 then seq(|starts|, r requires 0 <= r < |starts| => Initially(starts, r))
    else
      var before := Group(starts, t - 1);
      seq(|starts|, r requires 0 <= r < |starts| => Next(starts, before, t, r))
  }

  ghost predicate TakesOverAt(starts: seq<nat>, t: nat, r: nat)
    requires t > 0 && r < |starts|
  {
    TakesOver(Group(starts, t - 1)[r], starts[r], t)
  }

  /** The intended schedule: a shift ends every Y seconds and the next rank takes over. */
  predicate Scheduled(n: nat, t: nat, r: nat)
    requires n > 0
  {
    t % Y == 0 && r == t / Y % n
  }

  /** Up to second `h` exactly the scheduled nodes take over. */
  ghost predicate FollowsSchedule(starts: seq<nat>, h: nat)
    requires |starts| > 0
  {
    forall t, r :: 1 <= t <= h && 0 <= r < |starts| ==> (TakesOverAt(starts, t, r) <==> Scheduled(|starts|, t, r))
  }

  // ----- The ideal rotation

  /** The deputy of shift `k`. */
  function Current(n: nat, k: nat): (c: nat)
    requires n > 0
    ensures c < n
  {
    if k == 0 then 0 else if Current(n, k - 1) + 1 == n then 0 else Current(n, k - 1) + 1
  }

  lemma {:induction false} CurrentIsModulo(n: nat, k: nat)
    requires n > 0
    ensures Current(n, k) == k % n
  {
    if k > 0 {
      CurrentIsModulo(n, k - 1);
      ModuloStep(n, k - 1);
    } else {
      ModuloSmall(n);
    }
  }

  lemma ModuloSmall(n: nat)
    requires n > 0
    ensures 0 % n == 0
  {}

  lemma ModuloStep(n: nat, k: nat)
    requires n > 0
    ensures (k + 1) % n == if k % n + 1 == n then 0 else k % n + 1
  {
    var q, r := k / n, k % n;
    assert k == q * n + r;
    if r + 1 == n {
      assert k + 1 == (q + 1) * n + 0;
      Unique(k + 1, n, q + 1, 0);
    } else {
      Unique(k + 1, n, q, r + 1);
    }
  }

  lemma Unique(x: int, n: int, q: int, r: int)
    requires 0 <= r < n && x == q * n + r
    ensures x % n == r
  {
    var p := x / n;
    Distribute(p, q, n);
    if p > q {
      AtLeast(p - q, n);
    } else if p < q {
      Distribute(q, p, n);
      AtLeast(q - p, n);
    }
  }

  lemma Distribute(p: int, q: int, n: int)
    ensures (p - q) * n == p * n - q * n
  {}

  lemma AtLeast(d: int, n: int)
    requires d > 0 && n > 0
    ensures d * n >= n
  {}

  /** The shifts until rank `r` is deputy again, from a shift of rank `c`. */
  function Turns(n: nat, c: nat, r: nat): nat
    requires c < n && r < n
  {
    if r > c then r - c else r + n - c
  }

  /** The clock that rank `r` has stored by shift `k`: of its last takeover, or of the start. */
  function LastStamp(starts: seq<nat>, r: nat, k: nat): nat
    requires r < |starts|
  {
    if k == 0 then (if r == 0 then 0 else Clock(starts[r], 0))
    else if Current(|starts|, k) == r then Clock(starts[r], k * Y)
    else LastStamp(starts, r, k - 1)
  }

  /** The seconds of sleep that it has stored. */
  function LastPeriod(n: nat, r: nat, k: nat): nat
    requires r < n
  {
    if k == 0 then r * Y
    else if Current(n, k - 1) == r then (n - 1) * Y
    else LastPeriod(n, r, k - 1)
  }

  /** The state of rank `r` at second `t` of shift `k` when every shift has taken Y seconds. */
  function InShift(starts: seq<nat>, k: nat, t: nat, r: nat): NodeState
    requires r < |starts| && k * Y <= t < (k + 1) * Y
  {
    var n, c := |starts|, Current(|starts|, k);
    NodeState(r == c, if r == c then 0 else (k + Turns(n, c, r)) * Y - t, LastPeriod(n, r, k), LastStamp(starts, r, k))
  }

  function Ideal(starts: seq<nat>, t: nat, r: nat): NodeState
    requires r < |starts|
  {
    InShift(starts, t / Y, t, r)
  }

  ghost predicate LateAt(starts: seq<nat>, t: nat, r: nat)
    requires t > 0 && r < |starts|
  {
    Late(Ideal(starts, t - 1, r), starts[r], t)
  }

  /** No node is found late in the ideal rotation up to second `h`. */
  ghost predicate NeverLate(starts: seq<nat>, h: nat) {
    forall t, r :: 1 <= t <= h && 0 <= r < |starts| ==> !LateAt(starts, t, r)
  }

  ghost predicate IsIdeal(starts: seq<nat>, t: nat) {
    forall r :: 0 <= r < |starts| ==> Group(starts, t)[r] == Ideal(starts, t, r)
  }

  lemma StartIsIdeal(starts: seq<nat>)
    requires 0 < |starts| <= 256
    ensures IsIdeal(starts, 0)
  {}

  /** Where the shifts are before and after second `t`. */
  lemma ShiftOf(n: nat, t: nat)
    requires n >= 2 && t > 0
    ensures var k := (t - 1) / Y;
            && t / Y == (if t % Y == 0 then k + 1 else k)
            && k * Y < t <= (k + 1) * Y
            && (t % Y == 0 <==> t == (k + 1) * Y)
            && Current(n, k + 1) == (if Current(n, k) + 1 == n then 0 else Current(n, k) + 1)
            && (t % Y == 0 ==> Current(n, k + 1) == t / Y % n)
  {
    CurrentIsModulo(n, (t - 1) / Y + 1);
  }

  /** A node in its ideal state that is not late takes over exactly on schedule. */
  lemma TakesOverOnSchedule(starts: seq<nat>, t: nat, r: nat)
    requires 2 <= |starts| && t > 0 && r < |starts| && !LateAt(starts, t, r)
    ensures TakesOver(Ideal(starts, t - 1, r), starts[r], t) <==> Scheduled(|starts|, t, r)
  {
    ShiftOf(|starts|, t);
    hide LastPeriod, LastStamp, Clock, Deadline;
  }

  /** The seconds that rank `r` has left to sleep when rank `c` takes over from rank `b`. */
  lemma SleepAtShiftEnd(n: nat, k: nat, b: nat, c: nat, r: nat)
    requires 2 <= n && b < n && r < n && c == (if b + 1 == n then 0 else b + 1) && r != c
    ensures r == b ==> (k + 1 + Turns(n, c, r)) * Y - (k + 1) * Y == (n - 1) * Y
    ensures r != b ==> (k + 1 + Turns(n, c, r)) * Y - (k + 1) * Y == (k + Turns(n, b, r)) * Y - (k + 1) * Y >= Y
  {}

  /** The change of an ideal state in the second in which shift `k` ends. */
  lemma IdealAtShiftEnd(starts: seq<nat>, xs: seq<NodeState>, k: nat, t: nat, r: nat)
    requires 2 <= |starts| <= 256 && r < |starts| == |xs| && t == (k + 1) * Y
    requires xs[r] == InShift(starts, k, t - 1, r) && SomeTakesOver(starts, xs, t)
    requires TakesOver(xs[r], starts[r], t) <==> r == Current(|starts|, k + 1)
    ensures Next(starts, xs, t, r) == InShift(starts, k + 1, t, r)
  {
    var n := |starts|;
    var b, c := Current(n, k), Current(n, k + 1);
    hide Clock, Deadline, TakesOver, SomeTakesOver;
    if r != c {
      SleepAtShiftEnd(n, k, b, c, r);
    }
  }

  /** The change of an ideal state in any other second. */
  lemma IdealWithinShift(starts: seq<nat>, xs: seq<NodeState>, t: nat, r: nat)
    requires 2 <= |starts| && t > 0 && r < |starts| == |xs| && t % Y != 0
    requires xs[r] == Ideal(starts, t - 1, r) && !SomeTakesOver(starts, xs, t)
    ensures Next(starts, xs, t, r) == Ideal(starts, t, r)
  {
    ShiftOf(|starts|, t);
    assert !TakesOver(xs[r], starts[r], t);
    hide Clock, Deadline, TakesOver, SomeTakesOver;
  }

  lemma ShiftParts(t: nat)
    requires t > 0
    ensures t % Y == 0 ==> t / Y == (t - 1) / Y + 1 && t == t / Y * Y
  {}

  /** The change of an ideal state in a second in which the schedule is kept. */
  lemma IdealNext(starts: seq<nat>, xs: seq<NodeState>, t: nat, r: nat)
    requires 2 <= |starts| <= 256 && t > 0 && r < |starts| == |xs|
    requires xs[r] == Ideal(starts, t - 1, r)
    requires forall q :: 0 <= q < |xs| ==> (TakesOver(xs[q], starts[q], t) <==> Scheduled(|starts|, t, q))
    ensures Next(starts, xs, t, r) == Ideal(starts, t, r)
  {
    hide InShift, TakesOver, Next, Current;
    var k := (t - 1) / Y;
    ShiftParts(t);
    CurrentIsModulo(|starts|, t / Y);
    if t % Y == 0 {
      var c := Current(|starts|, k + 1);
      assert Scheduled(|starts|, t, c) && TakesOver(xs[c], starts[c], t);
      IdealAtShiftEnd(starts, xs, k, t, r);
    } else {
      IdealWithinShift(starts, xs, t, r);
    }
  }

  lemma IdealStep(starts: seq<nat>, t: nat)
    requires 2 <= |starts| <= 256 && t > 0 && IsIdeal(starts, t - 1)
    requires forall r :: 0 <= r < |starts| ==> !LateAt(starts, t, r)
    ensures IsIdeal(starts, t)
    ensures forall r :: 0 <= r < |starts| ==> (TakesOverAt(starts, t, r) <==> Scheduled(|starts|, t, r))
  {
    var xs := Group(starts, t - 1);
    hide Ideal, TakesOver, Late, Scheduled, Next;
    forall r | 0 <= r < |starts|
      ensures TakesOver(xs[r], starts[r], t) <==> Scheduled(|starts|, t, r)
    {
      TakesOverOnSchedule(starts, t, r);
    }
    forall r | 0 <= r < |starts| ensures Group(starts, t)[r] == Ideal(starts, t, r) {
      IdealNext(starts, xs, t, r);
    }
  }

  lemma {:induction false} NeverLateIsIdeal(starts: seq<nat>, h: nat)
    requires 2 <= |starts| <= 256 && NeverLate(starts, h)
    ensures IsIdeal(starts, h) && FollowsSchedule(starts, h)
  {
    if h == 0 {
      StartIsIdeal(starts);
    } else {
      NeverLateIsIdeal(starts, h - 1);
      hide IsIdeal, LateAt, TakesOverAt, Scheduled;
      IdealStep(starts, h);
    }
  }

  /** Exactly the scheduled ranks take over, up to any second, exactly when no node is found late in
      the ideal rotation up to that second. */
  lemma {:induction false} FollowsScheduleIff(starts: seq<nat>, h: nat)
    requires 2 <= |starts| <= 256
    ensures FollowsSchedule(starts, h) <==> NeverLate(starts, h)
  {
    if NeverLate(starts, h) {
      NeverLateIsIdeal(starts, h);
    } else {
      var t, r := FirstLate(starts, h);
      NeverLateIsIdeal(starts, t - 1);
      LateIsOffSchedule(starts, t, r);
    }
  }

  lemma {:induction false} FirstLate(starts: seq<nat>, h: nat) returns (t: nat, r: nat)
    requires !NeverLate(starts, h)
    ensures 1 <= t <= h && r < |starts| && LateAt(starts, t, r) && NeverLate(starts, t - 1)
  {
    if NeverLate(starts, h - 1) {
      t := h;
      r :| 0 <= r < |starts| && LateAt(starts, h, r);
    } else {
      t, r := FirstLate(starts, h - 1);
    }
  }

  lemma LateIsOffSchedule(starts: seq<nat>, t: nat, r: nat)
    requires 2 <= |starts| <= 256 && t > 0 && r < |starts| && IsIdeal(starts, t - 1) && LateAt(starts, t, r)
    ensures TakesOverAt(starts, t, r) && !Scheduled(|starts|, t, r)
  {
    ShiftOf(|starts|, t);
    hide LastPeriod, LastStamp, Clock, Deadline;
  }

  /** While the schedule is kept there is one deputy, the one whose shift it is. */
  lemma OneDeputy(starts: seq<nat>, h: nat)
    requires 2 <= |starts| <= 256 && FollowsSchedule(starts, h)
    ensures forall t, r :: 0 <= t <= h && 0 <= r < |starts| ==> (Group(starts, t)[r].deputy <==> r == t / Y % |starts|)
  {
    FollowsScheduleIff(starts, h);
    forall t, r | 0 <= t <= h && 0 <= r < |starts|
      ensures Group(starts, t)[r].deputy <==> r == t / Y % |starts|
    {
      NeverLateIsIdeal(starts, t);
      CurrentIsModulo(|starts|, t / Y);
    }
  }

  // ----- When a node is found late

  /** In the first cycle shift `k` belongs to rank `k`. What rank `r` has stored by then: its takeover, or
      the start, or for rank 0, which never took over, nothing. */
  lemma {:induction false} FirstCycle(starts: seq<nat>, k: nat, r: nat)
    requires k < |starts| && r < |starts|
    ensures Current(|starts|, k) == k
    ensures LastStamp(starts, r, k) == if r == 0 then 0 else Clock(starts[r], if r <= k then r * Y else 0)
    ensures LastPeriod(|starts|, r, k) == if r < k then (|starts| - 1) * Y else r * Y
  {
    if k > 0 {
      FirstCycle(starts, k - 1, r);
    }
  }

  /** Adding seconds to a clock, before or after its wrap-around. */
  lemma ClockPlus(start: nat, t: nat, d: nat)
    ensures (Clock(start, t) + d * SEC) % TWO32 == Clock(start, t + d)
  {
    ModAdd(start + t * SEC, d * SEC);
  }

  /** What finds rank `r` late at second `t` of the first cycle, in terms of its clock alone: it sleeps,
      not to its last second, and the clock shows at least what it showed or will show at its deadline,
      which is a shift early after a takeover. */
  predicate SeemsLate(starts: seq<nat>, t: nat, r: nat)
    requires t > 0 && r < |starts|
  {
    var n, k := |starts|, (t - 1) / Y;
    && r != k && t != (if r > k then r else r + n) * Y
    && (if r == 0 then Clock(starts[r], t) >= (n - 1) * Y * SEC % TWO32
        else Clock(starts[r], t) >= Clock(starts[r], if r > k then r * Y else (r + n - 1) * Y))
  }

  lemma LateInFirstCycle(starts: seq<nat>, t: nat, r: nat)
    requires 2 <= |starts| <= 256 && r < |starts| && 1 <= t <= |starts| * Y
    ensures LateAt(starts, t, r) <==> SeemsLate(starts, t, r)
  {
    var n, k := |starts|, (t - 1) / Y;
    FirstCycle(starts, k, r);
    ClockPlus(starts[r], 0, r * Y);
    ClockPlus(starts[r], r * Y, (n - 1) * Y);
    hide Clock, Current, LastStamp, LastPeriod;
    var x := Ideal(starts, t - 1, r);
    assert k * Y < t <= (k + 1) * Y;
    assert r != k ==> x.counter == (if r > k then r else r + n) * Y - (t - 1);
  }

  /** Rank 1 is late at the end of the cycle, whatever its clock shows. */
  lemma NoWholeCycle(starts: seq<nat>)
    requires 3 <= |starts| <= 256
    ensures !FollowsSchedule(starts, |starts| * Y)
  {
    FollowsScheduleIff(starts, |starts| * Y);
    LateInFirstCycle(starts, |starts| * Y, 1);
    assert LateAt(starts, |starts| * Y, 1);
  }

  lemma FollowsLess(starts: seq<nat>, h: nat, less: nat)
    requires |starts| > 0 && less <= h
    ensures FollowsSchedule(starts, h) ==> FollowsSchedule(starts, less)
  {}

  /** Up to when three or more nodes keep the schedule, for all clocks. */
  lemma ScheduleKeptIff(starts: seq<nat>, h: nat)
    requires 3 <= |starts| <= 256
    ensures FollowsSchedule(starts, h) <==>
            h < |starts| * Y && forall t, r :: 1 <= t <= h && 0 <= r < |starts| ==> !SeemsLate(starts, t, r)
  {
    FollowsScheduleIff(starts, h);
    if h >= |starts| * Y {
      FollowsLess(starts, h, |starts| * Y);
      NoWholeCycle(starts);
    }
    hide FollowsSchedule, LateAt, SeemsLate;
    if h < |starts| * Y {
      forall t, r | 1 <= t <= h && 0 <= r < |starts| ensures LateAt(starts, t, r) <==> SeemsLate(starts, t, r) {
        LateInFirstCycle(starts, t, r);
      }
    }
  }

  /** No clock reaches 2^32 in the first cycle; so there are at most 178 nodes. */
  ghost predicate NoWrap(starts: seq<nat>) {
    forall r :: 0 <= r < |starts| ==> starts[r] + |starts| * Y * SEC < TWO32
  }

  /** The deadline that rank `r` will have after its shift does not fit 32 bits. */
  predicate DeadlineOverflows(starts: seq<nat>, r: nat)
    requires r < |starts|
  {
    r > 0 && starts[r] + (r + |starts| - 1) * Y * SEC >= TWO32
  }

  /** Up to when the schedule is kept by nodes whose clocks do not wrap round in the first cycle: until
      the clock of the first deputy shows (n - 1) * Y seconds, and until the first node goes to sleep
      whose deadline overflows. */
  lemma KeptWithoutWrapIff(starts: seq<nat>, h: nat)
    requires 2 <= |starts| && NoWrap(starts)
    ensures FollowsSchedule(starts, h) <==>
            && (h <= Y || starts[0] + h * SEC < (|starts| - 1) * Y * SEC)
            && (forall r :: 0 <= r < |starts| && DeadlineOverflows(starts, r) ==> h <= (r + 1) * Y)
  {
    assert starts[0] + |starts| * Y * SEC < TWO32;
    FollowsScheduleIff(starts, h);
    hide FollowsSchedule, LateAt, SeemsLate, NoWrap;
    var n := |starts|;
    if h > Y && starts[0] + h * SEC >= (n - 1) * Y * SEC {
      var t := if h < n * Y then h else n * Y - 1;
      LateInFirstCycle(starts, t, 0);
      FirstSeemsLate(starts, t);
    } else {
      forall t, r | 1 <= t <= h && 0 <= r < n
        ensures LateAt(starts, t, r) <==> DeadlineOverflows(starts, r) && t > (r + 1) * Y
      {
        LateInFirstCycle(starts, t, r);
        if r == 0 {
          FirstSeemsLate(starts, t);
        } else {
          OtherSeemsLate(starts, t, r);
        }
      }
      forall r | 0 <= r < n && DeadlineOverflows(starts, r) && h > (r + 1) * Y
        ensures LateAt(starts, h, r)
      {}
    }
  }

  lemma FirstSeemsLate(starts: seq<nat>, t: nat)
    requires 2 <= |starts| && NoWrap(starts) && 1 <= t < |starts| * Y
    ensures SeemsLate(starts, t, 0) <==> t > Y && starts[0] + t * SEC >= (|starts| - 1) * Y * SEC
  {
    assert starts[0] + |starts| * Y * SEC < TWO32;
    SmallModulo(starts[0] + t * SEC);
    SmallModulo((|starts| - 1) * Y * SEC);
  }

  lemma OtherSeemsLate(starts: seq<nat>, t: nat, r: nat)
    requires 2 <= |starts| && NoWrap(starts) && 0 < r < |starts| && 1 <= t && (t <= Y || t < (|starts| - 1) * Y)
    ensures SeemsLate(starts, t, r) <==> DeadlineOverflows(starts, r) && t > (r + 1) * Y
  {
    var d := starts[r] + (r + |starts| - 1) * Y * SEC;
    assert starts[r] + |starts| * Y * SEC < TWO32;
    SmallModulo(starts[r] + t * SEC);
    SmallModulo(starts[r] + r * Y * SEC);
    SmallModulo(if d < TWO32 then d else d - TWO32);
    assert d % TWO32 == if d < TWO32 then d else d - TWO32;
  }

  /** Two nodes keep a whole cycle exactly when the clock of rank 0 wraps round as it goes to sleep, and
      that of rank 1 does not while it sleeps, unless it does at once. */
  lemma WholeCycleOfTwoIff(starts: seq<nat>)
    requires |starts| == 2
    ensures FollowsSchedule(starts, 2 * Y) <==>
            && (starts[0] + (Y + 1) * SEC) % TWO32 < 2 * SEC
            && (starts[1] % TWO32 + Y * SEC < TWO32 || starts[1] % TWO32 + SEC >= TWO32)
  {
    FollowsScheduleIff(starts, 2 * Y);
    forall t, r | 1 <= t <= 2 * Y && 0 <= r < 2 ensures LateAt(starts, t, r) <==> SeemsLate(starts, t, r) {
      LateInFirstCycle(starts, t, r);
    }
    FirstOfTwo(starts);
    SecondOfTwo(starts);
    hide *;
  }

  lemma FirstOfTwo(starts: seq<nat>)
    requires |starts| == 2
    ensures (forall t :: 1 <= t <= 2 * Y ==> !SeemsLate(starts, t, 0)) <==>
            (starts[0] + (Y + 1) * SEC) % TWO32 < 2 * SEC
  {
    var x := Clock(starts[0], Y + 1);
    forall t | Y + 1 <= t < 2 * Y
      ensures SeemsLate(starts, t, 0) <==> (x + (t - Y - 1) * SEC) % TWO32 >= Y * SEC
    {
      ClockPlus(starts[0], Y + 1, t - Y - 1);
    }
    if x < 2 * SEC {
    } else if x < Y * SEC {
      assert SeemsLate(starts, 2 * Y - 1, 0);
    } else {
      assert SeemsLate(starts, Y + 1, 0);
    }
  }

  lemma SecondOfTwo(starts: seq<nat>)
    requires |starts| == 2
    ensures (forall t :: 1 <= t <= 2 * Y ==> !SeemsLate(starts, t, 1)) <==>
            (starts[1] % TWO32 + Y * SEC < TWO32 || starts[1] % TWO32 + SEC >= TWO32)
  {
    var x := Clock(starts[1], 0);
    ClockPlus(starts[1], 0, Y);
    forall t | 1 <= t < Y
      ensures SeemsLate(starts, t, 1) <==> (x + t * SEC) % TWO32 >= (x + Y * SEC) % TWO32
    {
      ClockPlus(starts[1], 0, t);
    }
    if x + Y * SEC >= TWO32 && x + SEC < TWO32 {
      assert SeemsLate(starts, 1, 1);
    }
  }

  /** In the third shift of two nodes rank 0 is deputy and rank 1 sleeps until its clock shows at least
      what it showed at the end of its own shift. */
  lemma LateInThirdShift(starts: seq<nat>, t: nat, r: nat)
    requires |starts| == 2 && 2 * Y < t <= 3 * Y && r < 2
    ensures LateAt(starts, t, r) <==> r == 1 && t != 3 * Y && Clock(starts[1], t) >= Clock(starts[1], 2 * Y)
  {
    hide Clock;
    assert LastStamp(starts, 1, 2) == LastStamp(starts, 1, 1) == Clock(starts[1], Y);
    assert LastPeriod(2, 1, 2) == Y && Current(2, 2) == 0;
    ClockPlus(starts[1], Y, Y);
    assert (t - 1) / Y == 2;
  }

  lemma SecondOfTwoAgain(starts: seq<nat>, t: nat)
    requires |starts| == 2 && 2 * Y < t < 3 * Y
    ensures Clock(starts[1], 2 * Y + 1) >= Clock(starts[1], 2 * Y) <==> Clock(starts[1], 2 * Y + 1) >= SEC
    ensures Clock(starts[1], 2 * Y + 1) < SEC ==> Clock(starts[1], t) < Clock(starts[1], 2 * Y)
  {
    ClockPlus(starts[1], 2 * Y, 1);
    ClockPlus(starts[1], 2 * Y, t - 2 * Y);
  }

  /** Up to when two nodes keep the schedule, for all clocks. */
  lemma TwoKeepIff(starts: seq<nat>, h: nat)
    requires |starts| == 2
    ensures FollowsSchedule(starts, h) <==>
            && h <= 3 * Y
            && (forall t, r :: 1 <= t <= h && t <= 2 * Y && 0 <= r < 2 ==> !SeemsLate(starts, t, r))
            && (h > 2 * Y ==> Clock(starts[1], 2 * Y + 1) < SEC)
  {
    hide FollowsSchedule, LateAt, SeemsLate, Clock;
    if h > 3 * Y {
      FollowsLess(starts, h, 3 * Y + 1);
      TwoNeverThreeShifts(starts);
    } else {
      FollowsScheduleIff(starts, h);
      forall t, r | 1 <= t <= h && 0 <= r < 2
        ensures t <= 2 * Y ==> (LateAt(starts, t, r) <==> SeemsLate(starts, t, r))
        ensures t > 2 * Y && LateAt(starts, t, r) ==> Clock(starts[1], 2 * Y + 1) >= SEC
      {
        if t <= 2 * Y {
          LateInFirstCycle(starts, t, r);
        } else {
          LateInThirdShift(starts, t, r);
          if t < 3 * Y {
            SecondOfTwoAgain(starts, t);
          }
        }
      }
      if NeverLate(starts, h) {
        forall t, r | 1 <= t <= h && t <= 2 * Y && 0 <= r < 2 ensures !SeemsLate(starts, t, r) {
          assert !LateAt(starts, t, r);
        }
        if h > 2 * Y {
          LateInThirdShift(starts, 2 * Y + 1, 1);
          SecondOfTwoAgain(starts, 2 * Y + 1);
          assert !LateAt(starts, 2 * Y + 1, 1);
        }
      }
    }
  }

  lemma FirstOfTwoAfterThree(starts: seq<nat>)
    requires |starts| == 2
    ensures LateAt(starts, 3 * Y + 1, 0) <==> Clock(starts[0], 3 * Y + 1) >= Clock(starts[0], 3 * Y)
  {
    assert LastStamp(starts, 0, 3) == LastStamp(starts, 0, 2) == Clock(starts[0], 2 * Y);
    assert LastPeriod(2, 0, 3) == LastPeriod(2, 0, 2) == LastPeriod(2, 0, 1) == Y;
    ClockPlus(starts[0], 2 * Y, Y);
    hide Clock, LastStamp, LastPeriod;
  }

  /** They keep it no longer than into the next cycle. */
  lemma TwoNeverThreeShifts(starts: seq<nat>)
    requires |starts| == 2
    ensures !FollowsSchedule(starts, 3 * Y + 1)
  {
    hide FollowsSchedule, LateAt, Clock;
    FollowsScheduleIff(starts, 3 * Y + 1);
    LateInFirstCycle(starts, Y + 1, 0);
    FirstOfTwoAfterThree(starts);
    WrapsOnce(starts[0]);
    assert LateAt(starts, Y + 1, 0) || LateAt(starts, 3 * Y + 1, 0);
  }

  lemma WrapsOnce(start: nat)
    ensures Clock(start, Y + 1) >= Y * SEC % TWO32 || Clock(start, 3 * Y + 1) >= Clock(start, 3 * Y)
  {
    ClockPlus(start, Y + 1, 2 * Y - 1);
    ClockPlus(start, Y + 1, 2 * Y);
  }

  /** No group of two or more keeps the schedule for good, whatever the clocks show. */
  lemma NoGroupKeepsTheSchedule(starts: seq<nat>)
    requires 2 <= |starts| <= 256
    ensures !FollowsSchedule(starts, |starts| * Y + Y + 1)
  {
    if |starts| == 2 {
      TwoNeverThreeShifts(starts);
    } else {
      NoWholeCycle(starts);
      FollowsLess(starts, |starts| * Y + Y + 1, |starts| * Y);
    }
  }

  /** The whole cycle of two nodes is possible. */
  lemma PairKeepsCycle()
    ensures FollowsSchedule([TWO32 - (Y + 1) * SEC, 0], 2 * Y)
  {
    WholeCycleOfTwoIff([TWO32 - (Y + 1) * SEC, 0]);
  }

  /** From 180 nodes on the 32-bit sum of the lateness test wraps round: rank 179 takes over two seconds
      after the start instead of after 179 shifts. */
  lemma DeadlineWraps(starts: seq<nat>)
    requires 180 <= |starts| <= 256 && starts[179] + 2 * SEC < TWO32
    ensures TakesOverAt(starts, 2, 179) && !Scheduled(|starts|, 2, 179)
    ensures !FollowsSchedule(starts, 2)
  {
    SmallModulo(starts[179]);
    SmallModulo(starts[179] + SEC);
    SmallModulo(starts[179] + 2 * SEC);
    var x := Group(starts, 0)[179];
    assert x == NodeState(false, 179 * Y, 179 * Y, starts[179]);
    assert !TakesOver(x, starts[179], 1);
    assert Group(starts, 1)[179] == x.(counter := 179 * Y - 1);
  }
}
