/** How the deputies of rotation.dfy really take turns: not by rank round the whole group, but in n - 1
    shifts that rank 0 cuts into. */
module RotationTurns {
  import opened Common
  import opened Rotation

  // ----- Deputies, for all clocks

  ghost predicate SomeTakeover(starts: seq<nat>, t: nat)
    requires t > 0
  {
    exists r :: 0 <= r < |starts| && TakesOverAt(starts, t, r)
  }

  /** The last second up to `t` in which a node took over, 0 for none. */
  ghost function LastTakeover(starts: seq<nat>, t: nat): (s: nat)
    ensures s <= t
  {
    if t == 0 || SomeTakeover(starts, t) then t else LastTakeover(starts, t - 1)
  }

  lemma DeputyStep(starts: seq<nat>, t: nat, r: nat)
    requires t > 0 && r < |starts|
    ensures Group(starts, t)[r].deputy <==>
            TakesOverAt(starts, t, r) || (Group(starts, t - 1)[r].deputy && !SomeTakeover(starts, t))
  {
    hide TakesOver;
    var xs := Group(starts, t - 1);
    if SomeTakesOver(starts, xs, t) {
      var q :| 0 <= q < |xs| && TakesOver(xs[q], starts[q], t);
      assert TakesOverAt(starts, t, q);
    }
  }

  /** Rank 0 is deputy at the start; whoever takes over is deputy until some other node does. */
  lemma {:induction false} DeputiesAre(starts: seq<nat>, t: nat, r: nat)
    requires r < |starts|
    ensures var s := LastTakeover(starts, t);
            Group(starts, t)[r].deputy <==> if s == 0 then r == 0 else TakesOverAt(starts, s, r)
  {
    if t > 0 {
      hide Group, TakesOverAt;
      DeputiesAre(starts, t - 1, r);
      DeputyStep(starts, t, r);
      assert TakesOverAt(starts, t, r) ==> SomeTakeover(starts, t);
    } else {
      StartDeputy(starts, r);
    }
  }

  lemma StartDeputy(starts: seq<nat>, r: nat)
    requires r < |starts|
    ensures Group(starts, 0)[r].deputy <==> r == 0
  {}

  ghost predicate SoleDeputy(starts: seq<nat>, t: nat, r: nat) {
    r < |starts| && forall q :: 0 <= q < |starts| ==> (Group(starts, t)[q].deputy <==> q == r)
  }

  ghost predicate OneDeputyAt(starts: seq<nat>, t: nat) { exists r :: SoleDeputy(starts, t, r) }

  ghost predicate BothTakeOver(starts: seq<nat>, t: nat, q: nat, r: nat)
    requires t > 0
  {
    q < r < |starts| && TakesOverAt(starts, t, q) && TakesOverAt(starts, t, r)
  }

  ghost predicate TwoAtOnce(starts: seq<nat>, t: nat)
    requires t > 0
  {
    exists q, r :: BothTakeOver(starts, t, q, r)
  }

  lemma {:induction false} LastTakeoverIs(starts: seq<nat>, t: nat)
    ensures var s := LastTakeover(starts, t); s > 0 ==> SomeTakeover(starts, s)
  {
    if t > 0 && !SomeTakeover(starts, t) {
      LastTakeoverIs(starts, t - 1);
    }
  }

  /** The group never lacks a deputy. */
  lemma NeverWithoutDeputy(starts: seq<nat>, t: nat) returns (r: nat)
    requires |starts| > 0
    ensures r < |starts| && Group(starts, t)[r].deputy
  {
    var s := LastTakeover(starts, t);
    LastTakeoverIs(starts, t);
    hide Group, TakesOverAt, LastTakeover;
    if s == 0 {
      r := 0;
    } else {
      r :| 0 <= r < |starts| && TakesOverAt(starts, s, r);
    }
    DeputiesAre(starts, t, r);
  }

  /** It has exactly one in every second if and only if no two nodes ever take over in the same second. */
  lemma OneDeputyIffNeverTwoAtOnce(starts: seq<nat>, h: nat)
    requires |starts| > 0
    ensures (forall t :: 0 <= t <= h ==> OneDeputyAt(starts, t)) <==>
            (forall t :: 1 <= t <= h ==> !TwoAtOnce(starts, t))
  {
    hide TakesOverAt, Group;
    if forall t :: 1 <= t <= h ==> !TwoAtOnce(starts, t) {
      forall t | 0 <= t <= h ensures OneDeputyAt(starts, t) {
        NotTwoIsOne(starts, t);
      }
    }
    if t :| 1 <= t <= h && TwoAtOnce(starts, t) {
      var q, r :| BothTakeOver(starts, t, q, r);
      DeputiesAre(starts, t, q);
      DeputiesAre(starts, t, r);
      assert !OneDeputyAt(starts, t);
    }
  }

  lemma NotTwoIsOne(starts: seq<nat>, t: nat)
    requires |starts| > 0 && forall s :: 1 <= s <= t ==> !TwoAtOnce(starts, s)
    ensures OneDeputyAt(starts, t)
  {
    hide TakesOverAt, Group;
    var s := LastTakeover(starts, t);
    assert s > 0 ==> !TwoAtOnce(starts, s);
    var r := NeverWithoutDeputy(starts, t);
    DeputiesAre(starts, t, r);
    forall q | 0 <= q < |starts| ensures Group(starts, t)[q].deputy <==> q == r {
      DeputiesAre(starts, t, q);
      assert s > 0 ==> !BothTakeOver(starts, s, q, r) && !BothTakeOver(starts, s, r, q);
    }
    assert SoleDeputy(starts, t, r);
  }

  // ----- The turns

  /** The seconds after which a node that has been deputy takes over again: a shift less than its place in
      the rotation, because its sleep is counted from its takeover. */
  function Cycle(starts: seq<nat>): int { (|starts| - 1) * Y }

  /** The first turn of a rank; for rank 0 the first second after its initial shift in which its clock
      shows at least a cycle, since it has no takeover to count from. */
  function First(starts: seq<nat>, r: nat): nat
    requires |starts| >= 2
  {
    if r > 0 then r * Y
    else if Cycle(starts) - starts[0] / SEC > Y then Cycle(starts) - starts[0] / SEC
    else Y + 1
  }

  lemma FirstIsFirst(starts: seq<nat>, t: nat)
    requires |starts| >= 2 && t > Y
    ensures starts[0] + t * SEC >= Cycle(starts) * SEC <==> t >= First(starts, 0)
  {}

  /** Every cycle from the first turn on. */
  predicate Turn(starts: seq<nat>, t: nat, r: nat)
    requires |starts| >= 2
    decreases t
  {
    t == First(starts, r) || (t >= First(starts, r) + Cycle(starts) && Turn(starts, t - Cycle(starts), r))
  }

  lemma TurnIff(starts: seq<nat>, t: nat, r: nat)
    requires |starts| >= 2
    ensures Turn(starts, t, r) <==> exists k: nat :: t == First(starts, r) + k * Cycle(starts)
  {
    hide First, Cycle;
    if Turn(starts, t, r) {
      var k := TurnNumber(starts, t, r);
      assert t == First(starts, r) + k * Cycle(starts);
    }
    if k: nat :| t == First(starts, r) + k * Cycle(starts) {
      NumberedTurn(starts, k, r);
    }
  }

  lemma TurnNumber(starts: seq<nat>, t: nat, r: nat) returns (k: nat)
    requires |starts| >= 2 && Turn(starts, t, r)
    ensures t == First(starts, r) + k * Cycle(starts)
    decreases t
  {
    if t == First(starts, r) {
      k := 0;
    } else {
      var j := TurnNumber(starts, t - Cycle(starts), r);
      k := j + 1;
      OneCycleMore(j, Cycle(starts));
    }
  }

  lemma {:induction false} NumberedTurn(starts: seq<nat>, k: nat, r: nat)
    requires |starts| >= 2
    ensures k * Cycle(starts) >= 0 && Turn(starts, First(starts, r) + k * Cycle(starts), r)
  {
    if k > 0 {
      NumberedTurn(starts, k - 1, r);
      OneCycleMore(k - 1, Cycle(starts));
    }
  }

  lemma OneCycleMore(k: int, c: int)
    ensures (k + 1) * c == k * c + c
  {}

  /** Turns of a rank are at least a cycle apart. */
  lemma {:induction false} TurnsApart(starts: seq<nat>, s: nat, t: nat, r: nat)
    requires |starts| >= 2 && Turn(starts, s, r) && Turn(starts, t, r) && s < t
    ensures s >= First(starts, r) && t >= s + Cycle(starts)
    decreases s
  {
    if s != First(starts, r) {
      TurnsApart(starts, s - Cycle(starts), t - Cycle(starts), r);
    }
  }

  ghost predicate AnyTurn(starts: seq<nat>, t: nat)
    requires |starts| >= 2
  {
    exists r :: 0 <= r < |starts| && Turn(starts, t, r)
  }

  /** At every end of a shift it is some rank's turn. */
  lemma {:induction false} ShiftHasTurn(starts: seq<nat>, k: nat)
    requires |starts| >= 2 && k > 0
    ensures AnyTurn(starts, k * Y)
    decreases k
  {
    if k < |starts| {
      assert Turn(starts, k * Y, k);
    } else {
      var j := k - (|starts| - 1);
      ShiftHasTurn(starts, j);
      var r :| 0 <= r < |starts| && Turn(starts, j * Y, r);
      TurnAgain(starts, j * Y, r);
    }
  }

  lemma {:induction false} TurnAgain(starts: seq<nat>, t: nat, r: nat)
    requires |starts| >= 2 && Turn(starts, t, r)
    ensures t >= First(starts, r) && Turn(starts, t + Cycle(starts), r)
    decreases t
  {
    if t != First(starts, r) {
      TurnAgain(starts, t - Cycle(starts), r);
    }
  }

  // ----- Clocks that do not wrap round

  /** No clock and no deadline reaches 2^32 up to second `h`; so there are at most 178 nodes. */
  ghost predicate NoWrapUntil(starts: seq<nat>, h: nat) {
    forall r :: 0 <= r < |starts| ==> starts[r] + (h + |starts| * Y) * SEC < TWO32
  }

  /** The last turn of a rank up to second `t`, -1 for none. */
  function LastTurn(starts: seq<nat>, t: nat, r: nat): int
    requires |starts| >= 2
  {
    if Turn(starts, t, r) then t else if t == 0 then -1 else LastTurn(starts, t - 1, r)
  }

  lemma {:induction false} LastTurnIs(starts: seq<nat>, t: nat, r: nat)
    requires |starts| >= 2
    ensures var l := LastTurn(starts, t, r);
            && (l < 0 <==> t < First(starts, r))
            && (l >= 0 ==> Turn(starts, l, r) && First(starts, r) <= l <= t < l + Cycle(starts))
    ensures Turn(starts, t, r) ==> LastTurn(starts, t, r) == t >= First(starts, r)
  {
    if t == 0 {
      assert First(starts, r) > 0 || r == 0;
    } else {
      LastTurnIs(starts, t - 1, r);
      var l := LastTurn(starts, t - 1, r);
      if l >= 0 {
        TurnAgain(starts, l, r);
      }
    }
    if Turn(starts, t, r) {
      TurnAgain(starts, t, r);
    }
  }

  ghost predicate Quiet(starts: seq<nat>, from: int, t: nat)
    requires |starts| >= 2
  {
    forall s :: 0 <= s && from < s <= t ==> !AnyTurn(starts, s)
  }

  /** The state of rank `r` after second `t`: before its first turn it is asleep from the start, or it is
      rank 0 in its first shift or asleep after that; afterwards it is deputy since its last turn, or put
      to sleep since, with a counter that will not run out before it is found late. */
  ghost predicate InTurn(starts: seq<nat>, t: nat, r: nat, x: NodeState)
    requires |starts| >= 2 && r < |starts|
  {
    var n, l := |starts|, LastTurn(starts, t, r);
    if l < 0 then
      if r > 0 then !x.deputy && x.counter == r * Y - t && x.period == r * Y && x.last == starts[r]
      else if t < Y then x == NodeState(true, 0, 0, 0)
      else !x.deputy && x.counter == n * Y - t && x.period == Cycle(starts) && x.last == 0
    else
      && x.last == starts[r] + l * SEC
      && if x.deputy then Quiet(starts, l, t) else x.period == Cycle(starts) && x.counter > Cycle(starts) + l - t
  }

  /** Between two turns of a rank there is one of another. */
  lemma TurnBetween(starts: seq<nat>, l: nat, r: nat)
    requires 2 <= |starts| && r < |starts| && Turn(starts, l, r)
    ensures exists s :: l < s < l + Cycle(starts) && AnyTurn(starts, s)
  {
    if |starts| > 2 || r == 0 {
      var k := l / Y + 1;
      ShiftHasTurn(starts, k);
      if |starts| == 2 {
        SecondOfPair(starts, l);
      }
      assert l < k * Y < l + Cycle(starts);
    } else {
      FirstOfPair(starts, l);
    }
  }

  /** Of two nodes rank 0 has its turns a second after those of rank 1. */
  lemma {:induction false} SecondOfPair(starts: seq<nat>, l: nat)
    requires |starts| == 2 && Turn(starts, l, 0)
    ensures l > 0 && l % Y == 1
    decreases l
  {
    if l != First(starts, 0) {
      SecondOfPair(starts, l - Y);
    }
  }

  lemma {:induction false} FirstOfPair(starts: seq<nat>, l: nat)
    requires |starts| == 2 && Turn(starts, l, 1)
    ensures AnyTurn(starts, l + 1)
    decreases l
  {
    if l == First(starts, 1) {
      assert Turn(starts, l + 1, 0);
    } else {
      FirstOfPair(starts, l - Y);
      var r :| 0 <= r < 2 && Turn(starts, l - Y + 1, r);
      TurnAgain(starts, l - Y + 1, r);
    }
  }

  /** A node takes over exactly when it is its turn. */
  lemma TakesOverOnTurn(starts: seq<nat>, t: nat, r: nat, x: NodeState)
    requires 2 <= |starts| <= 256 && t > 0 && r < |starts| && NoWrapUntil(starts, t) && InTurn(starts, t - 1, r, x)
    ensures TakesOver(x, starts[r], t) <==> Turn(starts, t, r)
  {
    hide Turn, First, LastTurn, TakesOver, Clock, NoWrapUntil;
    var l := LastTurn(starts, t - 1, r);
    LastTurnIs(starts, t - 1, r);
    NoWrapAt(starts, t, r);
    if l >= 0 {
      NextTurnIs(starts, l, t, r);
      TurnBetween(starts, l, r);
      TakesOverAgain(starts, t, r, l, x);
    } else {
      FirstTurnIs(starts, t, r);
      TakesOverFirst(starts, t, r, x);
    }
  }

  lemma FirstTurnIs(starts: seq<nat>, t: nat, r: nat)
    requires |starts| >= 2 && t <= First(starts, r)
    ensures Turn(starts, t, r) <==> t == First(starts, r)
  {}

  lemma TakesOverFirst(starts: seq<nat>, t: nat, r: nat, x: NodeState)
    requires 2 <= |starts| <= 256 && r < |starts| && 0 < t <= First(starts, r)
    requires Clock(starts[r], t) == starts[r] + t * SEC && starts[r] + (t + |starts| * Y) * SEC < TWO32
    requires LastTurn(starts, t - 1, r) < 0 && InTurn(starts, t - 1, r, x)
    ensures TakesOver(x, starts[r], t) <==> t == First(starts, r)
  {
    hide Turn, LastTurn, Clock;
    if r > 0 {
      SmallModulo(starts[r] + r * Y * SEC);
    } else if t > Y {
      FirstIsFirst(starts, t);
      SmallModulo(Cycle(starts) * SEC);
    }
  }

  lemma NoWrapAt(starts: seq<nat>, t: nat, r: nat)
    requires r < |starts| && NoWrapUntil(starts, t)
    ensures Clock(starts[r], t) == starts[r] + t * SEC && starts[r] + (t + |starts| * Y) * SEC < TWO32
  {
    SmallModulo(starts[r] + t * SEC);
  }

  lemma NextTurnIs(starts: seq<nat>, l: nat, t: nat, r: nat)
    requires |starts| >= 2 && Turn(starts, l, r) && l < t <= l + Cycle(starts)
    ensures Turn(starts, t, r) <==> t == l + Cycle(starts)
  {
    TurnAgain(starts, l, r);
    if Turn(starts, t, r) {
      TurnsApart(starts, l, t, r);
    }
  }

  lemma TakesOverAgain(starts: seq<nat>, t: nat, r: nat, l: nat, x: NodeState)
    requires 2 <= |starts| <= 256 && r < |starts| && l < t <= l + Cycle(starts)
    requires Clock(starts[r], t) == starts[r] + t * SEC && starts[r] + (t + |starts| * Y) * SEC < TWO32
    requires x.last == starts[r] + l * SEC
    requires if x.deputy then Quiet(starts, l, t - 1)
             else x.period == Cycle(starts) && x.counter > Cycle(starts) + l - (t - 1)
    requires exists s :: l < s < l + Cycle(starts) && AnyTurn(starts, s)
    ensures TakesOver(x, starts[r], t) <==> t == l + Cycle(starts)
  {
    hide AnyTurn, Clock;
    if x.deputy {
      var s :| l < s < l + Cycle(starts) && AnyTurn(starts, s);
    } else {
      SmallModulo(x.last + x.period * SEC);
    }
  }

  lemma NextOnTurn(starts: seq<nat>, xs: seq<NodeState>, t: nat, r: nat)
    requires 2 <= |starts| && |xs| == |starts| && t > 0 && r < |starts| && NoWrapUntil(starts, t)
    requires TakesOver(xs[r], starts[r], t) && Turn(starts, t, r)
    ensures InTurn(starts, t, r, Next(starts, xs, t, r))
  {
    hide TakesOver, Turn, SomeTakesOver;
    NoWrapAt(starts, t, r);
  }

  lemma NextAfterTurn(starts: seq<nat>, xs: seq<NodeState>, t: nat, r: nat)
    requires 2 <= |starts| <= 256 && |xs| == |starts| && t > 0 && r < |starts|
    requires InTurn(starts, t - 1, r, xs[r]) && LastTurn(starts, t - 1, r) >= 0
    requires !TakesOver(xs[r], starts[r], t) && !Turn(starts, t, r)
    requires SomeTakesOver(starts, xs, t) <==> AnyTurn(starts, t)
    ensures InTurn(starts, t, r, Next(starts, xs, t, r))
  {
    hide TakesOver, Turn, First, LastTurn, SomeTakesOver, AnyTurn, Asleep, Clock;
    SameLastTurn(starts, t, r);
    LastTurnIs(starts, t - 1, r);
    SleepsFor(xs[r], |starts|);
  }

  lemma SameLastTurn(starts: seq<nat>, t: nat, r: nat)
    requires |starts| >= 2 && t > 0 && !Turn(starts, t, r)
    ensures LastTurn(starts, t, r) == LastTurn(starts, t - 1, r)
  {}

  lemma SleepsFor(x: NodeState, n: nat)
    requires 0 < n <= 256
    ensures Asleep(x, n - 1) == NodeState(false, (n - 1) * Y, (n - 1) * Y, x.last)
  {}

  lemma NextBeforeTurn(starts: seq<nat>, xs: seq<NodeState>, t: nat, r: nat)
    requires 2 <= |starts| <= 256 && |xs| == |starts| && t > 0 && r < |starts|
    requires InTurn(starts, t - 1, r, xs[r]) && LastTurn(starts, t - 1, r) < 0
    requires !TakesOver(xs[r], starts[r], t) && !Turn(starts, t, r)
    requires SomeTakesOver(starts, xs, t) <==> AnyTurn(starts, t)
    ensures InTurn(starts, t, r, Next(starts, xs, t, r))
  {
    hide TakesOver, Turn, LastTurn, SomeTakesOver, AnyTurn, Asleep, Clock;
    SameLastTurn(starts, t, r);
    LastTurnIs(starts, t, r);
    FirstTurns(starts, t);
    SleepsFor(xs[r], |starts|);
  }

  /** The change of a node's state in a second in which exactly the nodes whose turn it is take over. */
  lemma InTurnNext(starts: seq<nat>, xs: seq<NodeState>, t: nat, r: nat)
    requires 2 <= |starts| <= 256 && |xs| == |starts| && t > 0 && r < |starts| && NoWrapUntil(starts, t)
    requires InTurn(starts, t - 1, r, xs[r])
    requires TakesOver(xs[r], starts[r], t) <==> Turn(starts, t, r)
    requires SomeTakesOver(starts, xs, t) <==> AnyTurn(starts, t)
    ensures InTurn(starts, t, r, Next(starts, xs, t, r))
  {
    hide *;
    if Turn(starts, t, r) {
      NextOnTurn(starts, xs, t, r);
    } else if LastTurn(starts, t - 1, r) >= 0 {
      NextAfterTurn(starts, xs, t, r);
    } else {
      NextBeforeTurn(starts, xs, t, r);
    }
  }

  /** The first turn of all is that of rank 1, at the end of the first shift. */
  lemma FirstTurns(starts: seq<nat>, t: nat)
    requires |starts| >= 2
    ensures t <= Y ==> (AnyTurn(starts, t) <==> t == Y)
  {
    assert Turn(starts, Y, 1);
  }

  ghost predicate AllInTurn(starts: seq<nat>, t: nat)
    requires |starts| >= 2
  {
    forall r :: 0 <= r < |starts| ==> InTurn(starts, t, r, Group(starts, t)[r])
  }

  lemma StartInTurn(starts: seq<nat>)
    requires 2 <= |starts| <= 256 && NoWrapUntil(starts, 0)
    ensures AllInTurn(starts, 0)
  {
    forall r | 0 <= r < |starts| ensures InTurn(starts, 0, r, Group(starts, 0)[r]) {
      NoWrapAt(starts, 0, r);
    }
  }

  lemma AllInTurnStep(starts: seq<nat>, t: nat)
    requires 2 <= |starts| <= 256 && t > 0 && NoWrapUntil(starts, t) && AllInTurn(starts, t - 1)
    ensures AllInTurn(starts, t)
    ensures forall r :: 0 <= r < |starts| ==> (TakesOverAt(starts, t, r) <==> Turn(starts, t, r))
  {
    hide InTurn, TakesOver, Turn, Next, NoWrapUntil;
    var xs := Group(starts, t - 1);
    forall r | 0 <= r < |starts| ensures TakesOver(xs[r], starts[r], t) <==> Turn(starts, t, r) {
      TakesOverOnTurn(starts, t, r, xs[r]);
    }
    assert SomeTakesOver(starts, xs, t) <==> AnyTurn(starts, t);
    forall r | 0 <= r < |starts| ensures InTurn(starts, t, r, Group(starts, t)[r]) {
      InTurnNext(starts, xs, t, r);
    }
  }

  lemma {:induction false} InTurnUntil(starts: seq<nat>, h: nat)
    requires 2 <= |starts| <= 256 && NoWrapUntil(starts, h)
    ensures AllInTurn(starts, h)
    ensures forall t, r :: 1 <= t <= h && 0 <= r < |starts| ==> (TakesOverAt(starts, t, r) <==> Turn(starts, t, r))
  {
    hide AllInTurn, TakesOverAt, Turn;
    if h == 0 {
      StartInTurn(starts);
    } else {
      InTurnUntil(starts, h - 1);
      AllInTurnStep(starts, h);
    }
  }

  /** The turns that are really taken: rank r > 0 takes over at r * Y, rank 0 in the first second after its
      shift in which its clock shows (n - 1) * Y seconds, and each of them (n - 1) * Y seconds after its
      last turn: the rotation has n - 1 shifts, and rank 0 cuts into one of them. */
  lemma TurnsTaken(starts: seq<nat>, h: nat, t: nat, r: nat)
    requires 2 <= |starts| <= 256 && NoWrapUntil(starts, h) && 1 <= t <= h && r < |starts|
    ensures TakesOverAt(starts, t, r) <==> exists k: nat :: t == First(starts, r) + k * Cycle(starts)
  {
    InTurnUntil(starts, h);
    TurnIff(starts, t, r);
    hide First, Cycle, TakesOverAt, Turn;
  }

  // ----- Two deputies

  /** Two ranks have a turn in the same second only if rank 0 is one of them and its first turn falls on the
      end of a shift. */
  lemma {:induction false} SameTurn(starts: seq<nat>, t: nat, q: nat, r: nat)
    requires 2 <= |starts| && q < r < |starts| && Turn(starts, t, q) && Turn(starts, t, r)
    ensures q == 0 && First(starts, 0) % Y == 0 && t >= First(starts, 0)
    decreases t
  {
    if t != First(starts, q) && t != First(starts, r) {
      SameTurn(starts, t - Cycle(starts), q, r);
    }
  }

  /** There is exactly one deputy in every second up to `h` if and only if the first turn of rank 0 is not
      yet due or does not fall on the end of a shift. */
  lemma OneDeputyIff(starts: seq<nat>, h: nat)
    requires 2 <= |starts| <= 256 && NoWrapUntil(starts, h)
    ensures (forall t :: 0 <= t <= h ==> OneDeputyAt(starts, t)) <==>
            h < First(starts, 0) || First(starts, 0) % Y != 0
  {
    OneDeputyIffNeverTwoAtOnce(starts, h);
    InTurnUntil(starts, h);
    hide TakesOverAt, Turn, First, OneDeputyAt;
    if t :| 1 <= t <= h && TwoAtOnce(starts, t) {
      var q, r :| BothTakeOver(starts, t, q, r);
      SameTurn(starts, t, q, r);
    }
    if h >= First(starts, 0) && First(starts, 0) % Y == 0 {
      CutAtShiftEnd(starts);
      assert BothTakeOver(starts, First(starts, 0), 0, First(starts, 0) / Y);
      assert TwoAtOnce(starts, First(starts, 0));
    }
  }

  lemma CutAtShiftEnd(starts: seq<nat>)
    requires 2 <= |starts| && First(starts, 0) % Y == 0
    ensures var f := First(starts, 0);
            && f > 0 && 0 < f / Y < |starts| && Turn(starts, f, 0) && Turn(starts, f, f / Y)
  {}

  /** Three nodes started together: in the second in which rank 2 takes over from rank 1 so does rank 0. */
  lemma TwoDeputies()
    ensures Group([0, 0, 0], 48)[0].deputy && Group([0, 0, 0], 48)[2].deputy
  {
    var starts := [0, 0, 0];
    InTurnUntil(starts, 2 * Y);
    hide TakesOverAt, Group;
    assert Turn(starts, 2 * Y, 0) && Turn(starts, 2 * Y, 2);
    assert TakesOverAt(starts, 2 * Y, 0) && TakesOverAt(starts, 2 * Y, 2);
    DeputiesAre(starts, 2 * Y, 0);
    DeputiesAre(starts, 2 * Y, 2);
  }

  /** Of two nodes one is deputy, for all clocks: only the other can take over. */
  lemma TwoNodesOneDeputy(starts: seq<nat>, h: nat)
    requires |starts| == 2
    ensures forall t :: 0 <= t <= h ==> OneDeputyAt(starts, t)
  {
    hide Group, OneDeputyAt;
    forall t | 1 <= t <= h ensures !TwoAtOnce(starts, t) {
      var r := NeverWithoutDeputy(starts, t - 1);
      assert !TakesOverAt(starts, t, r);
    }
    OneDeputyIffNeverTwoAtOnce(starts, h);
  }
}
