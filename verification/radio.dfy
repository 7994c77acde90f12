/** The accounting of active and sleeping time in dow.c: `_radio_sleep` and `dow_wakeup`. */
module Radio {
  import opened Common

  /** `xtimer_now()` at real time `t`. */
  function Clock(t: nat): u32 { t % TWO32 }

  function Plus(x: u32, y: u32): u32 { (x + y) % TWO32 }

  function Minus(x: u32, y: u32): u32 { (x - y) % TWO32 }

  /** `dow_prevent_sleep`, `dow_sleeping`, `dow_ts_wakeup`, `dow_ts_sleep`, `dow_time_active` and
      `dow_time_sleeping`. */
  datatype Account = Account(prevent: nat, sleeping: bool, wakeup: u32, sleep: u32, active: u32, asleep: u32)

  /** A call of `_radio_sleep` (with whether the PIT is empty), a call of `dow_wakeup`, a chunk of the
      node's own that makes it wait for an interest, or that interest. */
  datatype Event = SleepCall(at: nat, pitEmpty: bool) | WakeCall(at: nat) | OwnChunk(at: nat) | OwnServed(at: nat)

  function Step(a: Account, e: Event): Account {
    match e
    case SleepCall(t, pitEmpty) =>
      if a.prevent > 0 && !pitEmpty then a
      else if a.sleeping then a.(prevent := 0)
      else a.(prevent := 0, sleeping := true, sleep := Clock(t), active := Plus(a.active, Minus(Clock(t), a.wakeup)))
    case WakeCall(t) =>
      if a.sleeping then
        a.(sleeping := false, wakeup := Clock(t), asleep := Plus(a.asleep, Minus(Clock(t), a.sleep)))
      else a
    case OwnChunk(_) => a.(prevent := (a.prevent + 1) % 256)
    case OwnServed(_) => a.(prevent := (a.prevent + 255) % 256)
  }

  class Accounting {
    var prevent: nat
    var sleeping: bool
    var wakeup: u32
    var sleep: u32
    var active: u32
    var asleep: u32

    function View(): Account
      reads this
    {
      Account(prevent, sleeping, wakeup, sleep, active, asleep)
    }

    /** `_loop` starts counting at real time `start`. */
    constructor (start: nat)
      ensures View() == Started(start)
    {
      prevent, sleeping, wakeup, sleep, active, asleep := 0, false, Clock(start), 0, 0, 0;
    }

    /** `_radio_sleep`. */
    method RadioSleep(now: nat, pitEmpty: bool)
      modifies this
      ensures View() == Step(old(View()), SleepCall(now, pitEmpty))
    {
      if prevent > 0 {
        if pitEmpty {
          prevent := 0;
        } else {
          return;
        }
      }
      if !sleeping {
        sleep := Clock(now);
        active := Plus(active, Minus(sleep, wakeup));
        sleeping := true;
      }
    }

    /** `dow_wakeup`. */
    method Wakeup(now: nat)
      modifies this
      ensures View() == Step(old(View()), WakeCall(now))
    {
      if sleeping {
        wakeup := Clock(now);
        asleep := Plus(asleep, Minus(wakeup, sleep));
        sleeping := false;
      }
    }

    /** DOW_MSG_RECEIVED at a node that is not deputy, up to the wake-up it calls. */
    method WaitForInterest(now: nat)
      modifies this
      ensures View() == Step(old(View()), OwnChunk(now))
    {
      prevent := (prevent + 1) % 256;
    }

    /** The part of `ccnlriot_producer` for the interest that the node waits for; eight bits wide. */
    method ServeInterest(now: nat)
      modifies this
      ensures View() == Step(old(View()), OwnServed(now))
    {
      prevent := (prevent - 1) % 256;
    }
  }

  function Started(start: nat): Account { Account(0, false, Clock(start), 0, 0, 0) }

  function Run(start: nat, events: seq<Event>): Account {
    if events == [] then Started(start) else Step(Run(start, events[..|events| - 1]), events[|events| - 1])
  }

  function Last(start: nat, events: seq<Event>): nat {
    if events == [] then start else events[|events| - 1].at
  }

  /** A call of `_radio_sleep` leaves the node awake if and only if it was awake, interests were pending and the
      PIT was not empty; an empty PIT makes it forget those interests. A node that starts or is woken is awake. */
  lemma StaysAwakeIff(a: Account, now: nat, pitEmpty: bool)
    ensures var b := Step(a, SleepCall(now, pitEmpty));
            && (!b.sleeping <==> !a.sleeping && a.prevent > 0 && !pitEmpty)
            && (b.prevent > 0 <==> a.prevent > 0 && !pitEmpty)
            && (b.prevent == 0 || b == a)
    ensures !Step(a, WakeCall(now)).sleeping && !Started(now).sleeping
  {}

  /** An own chunk and the interest for it leave the account as it was, but 256 chunks count as none. */
  lemma WaitingIsCounted(a: Account, now: nat, later: nat)
    requires a.prevent < 256
    ensures Step(Step(a, OwnChunk(now)), OwnServed(later)) == a
    ensures Step(a, OwnChunk(now)).prevent == 0 <==> a.prevent == 255
    ensures Step(a, OwnServed(now)).prevent == 255 <==> a.prevent == 0
  {
    assert ((a.prevent + 1) % 256 + 255) % 256 == a.prevent;
  }

  // ----- Real durations, defined from whether the radio was asleep between two calls

  /** The real time until `now` during which the radio was asleep (or awake). */
  function Real(start: nat, events: seq<Event>, now: int, sleeping: bool): int {
    var since := if Run(start, events).sleeping == sleeping then now - Last(start, events) else 0;
    if events == [] then since
    else Real(start, events[..|events| - 1], events[|events| - 1].at, sleeping) + since
  }

  /** The node is always either awake or asleep, and never both. */
  lemma {:induction false} RealTimesAddUp(start: nat, events: seq<Event>, now: int)
    ensures Real(start, events, now, true) + Real(start, events, now, false) == now - start
  {
    if events != [] {
      RealTimesAddUp(start, events[..|events| - 1], events[|events| - 1].at);
    }
  }

  /** What the totals amount to at real time `now`, with the time since the last change of state. */
  function Total(a: Account, now: nat, sleeping: bool): u32 {
    if sleeping then Plus(a.asleep, if a.sleeping then Minus(Clock(now), a.sleep) else 0)
    else Plus(a.active, if a.sleeping then 0 else Minus(Clock(now), a.wakeup))
  }

  lemma Congruent(x: int, y: int, k: int)
    requires x == y + k * TWO32
    ensures x % TWO32 == y % TWO32
  {}

  lemma AddDurations(x: u32, from: u32, mid: u32, to: u32)
    ensures Plus(Plus(x, Minus(mid, from)), Minus(to, mid)) == Plus(x, Minus(to, from))
  {
    var a, b, c := (mid - from) / TWO32, (to - mid) / TWO32, (to - from) / TWO32;
    var d := (x + Minus(mid, from)) / TWO32;
    Congruent(Plus(x, Minus(mid, from)) + Minus(to, mid), x + Minus(to, from), c - a - b - d);
  }

  lemma PlusZero(x: u32)
    ensures Plus(x, 0) == x
  {}

  /** A call adds nothing to the totals as of its own time, however often it repeats the one before. */
  lemma StepTotal(a: Account, e: Event, now: nat, sleeping: bool)
    ensures Total(Step(a, e), now, sleeping) ==
            Plus(Total(a, e.at, sleeping),
                 if Step(a, e).sleeping == sleeping then Minus(Clock(now), Clock(e.at)) else 0)
  {
    AddDurations(a.active, a.wakeup, Clock(e.at), Clock(now));
    AddDurations(a.asleep, a.sleep, Clock(e.at), Clock(now));
    PlusZero(a.active);
    PlusZero(a.asleep);
    hide Clock, Plus, Minus;
  }

  /** In every run, at any time, the totals are the real times awake and asleep modulo 2^32: timer
      wrap-around, repeated calls and postponed sleeps lose nothing. */
  lemma {:induction false} TotalsAreReal(start: nat, events: seq<Event>, now: nat, sleeping: bool)
    ensures Total(Run(start, events), now, sleeping) == Real(start, events, now, sleeping) % TWO32
  {
    if events == [] {
      AddModulo(0, now, start);
    } else {
      var before, e := events[..|events| - 1], events[|events| - 1];
      TotalsAreReal(start, before, e.at, sleeping);
      StepTotal(Run(start, before), e, now, sleeping);
      AddModulo(Real(start, before, e.at, sleeping), now, e.at);
    }
  }

  lemma AddModulo(x: int, now: nat, at: nat)
    ensures Plus(x % TWO32, Minus(Clock(now), Clock(at))) == (x + (now - at)) % TWO32
    ensures Plus(x % TWO32, 0) == x % TWO32
  {
    var k := Minus(Clock(now), Clock(at));
    var m := (Clock(now) - Clock(at)) / TWO32;
    Congruent(x % TWO32 + k, x + (now - at), at / TWO32 - now / TWO32 - m - x / TWO32);
  }

  /** After every call the two totals add up to the time of the last change of state since the start,
      modulo 2^32. */
  lemma {:induction false} TotalsAddUp(start: nat, events: seq<Event>)
    ensures var a := Run(start, events);
            Plus(a.active, a.asleep) == Minus(if a.sleeping then a.sleep else a.wakeup, Clock(start))
  {
    if events != [] {
      var before, e := events[..|events| - 1], events[|events| - 1];
      var a := Run(start, before);
      TotalsAddUp(start, before);
      SumGrows(a.active, a.asleep, a.wakeup, Clock(e.at), Clock(start));
      SumGrows(a.asleep, a.active, a.sleep, Clock(e.at), Clock(start));
      hide Clock, Plus, Minus;
    }
  }

  lemma SumGrows(x: u32, y: u32, from: u32, to: u32, start: u32)
    ensures Plus(x, y) == Plus(y, x)
    ensures Plus(x, y) == Minus(from, start) ==> Plus(Plus(x, Minus(to, from)), y) == Minus(to, start)
  {
    var m, p := (to - from) / TWO32, (x + Minus(to, from)) / TWO32;
    if Plus(x, y) == Minus(from, start) {
      var q, r := (x + y) / TWO32, (from - start) / TWO32;
      Congruent(Plus(x, Minus(to, from)) + y, to - start, q - r - m - p);
    }
  }
}
