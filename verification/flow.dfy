/** The consumer of l2.c: requests for numbered chunks with flow control, a periodic timer that asks for
    the next chunk and a retry timer for the smallest missing one. */
module FlowControl {
  import opened Common

  const FLOW_THR := 4

  /** `received_chunks`, `receive_counter`, `pit_ctr`, what `retry_vt` and `periodic_vt` will carry when
      they fire, and the sequence numbers of the interests sent so far. */
  datatype State = State(received: set<nat>, receiveCounter: nat, pitCtr: nat, retry: Option<nat>,
                         periodic: Option<nat>, sent: seq<nat>)

  function FirstMissing(received: set<nat>, n: nat, from: nat): (m: Option<nat>)
    decreases n - from
    ensures m.Some? ==> from <= m.value < n && m.value !in received
    ensures m.Some? ==> forall c :: from <= c < m.value ==> c in received
    ensures m.None? ==> forall c :: from <= c < n ==> c in received
  {
    if from >= n then None
    else if from !in received then Some(from)
    else FirstMissing(received, n, from + 1)
  }

  /** The effect of `icn_initInterest` for a file of `n` chunks. */
  function Requested(s: State, n: nat, seqNo: nat): State {
    var m := FirstMissing(s.received, n, 0);
    var armed := if m.Some? then s.(retry := m) else s;
    if seqNo in s.received || seqNo > s.receiveCounter + FLOW_THR || seqNo >= n then armed
    else armed.(sent := s.sent + [seqNo], periodic := Some(seqNo + 1))
  }

  /** The effect of a received chunk in `rcv`. */
  function Heard(s: State, seqNo: nat): State {
    if s.pitCtr > 0 then s.(pitCtr := s.pitCtr - 1)
    else
      s.(received := s.received + {seqNo},
         receiveCounter := if s.receiveCounter < seqNo then seqNo else s.receiveCounter)
  }

  class Consumer {
    /** NUMBER_OF_CHUNKS. */
    const n: nat
    var received: set<nat>
    var receiveCounter: nat
    var pitCtr: nat
    var retry: Option<nat>
    var periodic: Option<nat>
    var sent: seq<nat>

    function View(): State
      reads this
    {
      State(received, receiveCounter, pitCtr, retry, periodic, sent)
    }

    constructor (n: nat)
      ensures this.n == n && View() == Idle()
    {
      this.n := n;
      received, receiveCounter, pitCtr, retry, periodic, sent := {}, 0, 0, None, None, [];
    }

    /** `_getSmallestMissing`; -1 is None. */
    method GetSmallestMissing() returns (m: Option<nat>)
      ensures m == FirstMissing(received, n, 0)
      ensures m.Some? ==> m.value < n && m.value !in received && forall c :: 0 <= c < m.value ==> c in received
      ensures m.None? ==> forall c :: 0 <= c < n ==> c in received
    {
      for i := 0 to n
        invariant FirstMissing(received, n, 0) == FirstMissing(received, n, i)
      {
        if i !in received {
          return Some(i);
        }
      }
      return None;
    }

    /** `icn_initInterest`. */
    method InitInterest(seqNo: nat)
      requires n < TWO16
      modifies this
      ensures View() == Requested(old(View()), n, seqNo)
    {
      var smallest := GetSmallestMissing();
      if smallest.Some? {
        retry := smallest;
      }
      if seqNo in received {
        return;
      }
      if seqNo > receiveCounter + FLOW_THR {
        return;
      }
      if seqNo < n {
        sent := sent + [seqNo];
      }
      if seqNo < n {
        periodic := Some((seqNo + 1) % TWO16);
      }
    }

    /** ICN_INTEREST in `rcv`, at a node without the content. */
    method ReceiveInterest()
      modifies this
      ensures View() == old(View()).(pitCtr := old(pitCtr) + 1)
    {
      pitCtr := pitCtr + 1;
    }

    /** ICN_CONTENT in `rcv`, at the node that wants the content. */
    method ReceiveContent(seqNo: nat)
      modifies this
      ensures View() == Heard(old(View()), seqNo)
    {
      if pitCtr > 0 {
        pitCtr := pitCtr - 1;
      } else {
        received := received + {seqNo};
        receiveCounter := if receiveCounter < seqNo then seqNo else receiveCounter;
      }
    }

    /** ICN_RESEND_INTEREST and ICN_SEND_INTEREST: a timer fires. */
    method FireRetry()
      requires n < TWO16 && retry.Some?
      modifies this
      ensures View() == Step(old(View()), n, RetryFires)
    {
      var seqNo := retry.value;
      retry := None;
      InitInterest(seqNo);
    }

    method FirePeriodic()
      requires n < TWO16 && periodic.Some?
      modifies this
      ensures View() == Step(old(View()), n, PeriodicFires)
    {
      var seqNo := periodic.value;
      periodic := None;
      InitInterest(seqNo);
    }
  }

  function Idle(): State { State({}, 0, 0, None, None, []) }

  // ----- Runs

  /** A call of `icn_initInterest` from outside, a timer that fires, or a packet that arrives. */
  datatype Event = Request(seqNo: nat) | RetryFires | PeriodicFires | Content(seqNo: nat) | Interest

  /** A timer that is not armed does not fire. */
  function Step(s: State, n: nat, e: Event): State {
    match e
    case Request(c) => Requested(s, n, c)
    case RetryFires => if s.retry.Some? then Requested(s.(retry := None), n, s.retry.value) else s
    case PeriodicFires => if s.periodic.Some? then Requested(s.(periodic := None), n, s.periodic.value) else s
    case Content(c) => Heard(s, c)
    case Interest => s.(pitCtr := s.pitCtr + 1)
  }

  function Run(s: State, n: nat, events: seq<Event>): State
    decreases |events|
  {
    if events == [] then s else Run(Step(s, n, events[0]), n, events[1..])
  }

  function Missing(s: State, n: nat): set<nat> { set c | 0 <= c < n && c !in s.received }

  /** What holds in every reachable state: nothing above `receive_counter` has been received, and
      everything below the armed chunk has. */
  ghost predicate Sound(s: State, n: nat) {
    && (forall c :: c in s.received ==> c <= s.receiveCounter)
    && (s.retry.Some? ==> s.retry.value < n && forall c :: 0 <= c < s.retry.value ==> c in s.received)
  }

  lemma StepKeepsSound(s: State, n: nat, e: Event)
    requires Sound(s, n)
    ensures Sound(Step(s, n, e), n)
  {}

  lemma {:induction false} EveryRunIsSound(s: State, n: nat, events: seq<Event>)
    requires Sound(s, n)
    ensures Sound(Run(s, n, events), n)
    decreases |events|
  {
    if events != [] {
      StepKeepsSound(s, n, events[0]);
      EveryRunIsSound(Step(s, n, events[0]), n, events[1..]);
    }
  }

  /** In every reachable state the smallest missing chunk is within the window. */
  lemma SmallestMissingInWindow(n: nat, events: seq<Event>)
    ensures var s := Run(Idle(), n, events);
            var m := FirstMissing(s.received, n, 0);
            m.Some? ==> m.value <= s.receiveCounter + 1
  {
    EveryRunIsSound(Idle(), n, events);
    var s := Run(Idle(), n, events);
    var m := FirstMissing(s.received, n, 0);
    if m.Some? && m.value > 0 {
      assert m.value - 1 in s.received;
    }
  }

  /** Flow control never holds back a retry: one for a chunk that is still missing sends, and arms the
      retry for the same chunk again. */
  lemma RetrySends(n: nat, events: seq<Event>)
    ensures var s := Run(Idle(), n, events);
            var t := Step(s, n, RetryFires);
            s.retry.Some? && s.retry.value !in s.received ==>
              t.sent == s.sent + [s.retry.value] && t.retry == s.retry && t.periodic == Some(s.retry.value + 1)
  {
    EveryRunIsSound(Idle(), n, events);
    var s := Run(Idle(), n, events);
    if s.retry.Some? && s.retry.value !in s.received {
      var r := s.retry.value;
      if r > 0 {
        assert r - 1 in s.received;
      }
      assert FirstMissing(s.received, n, 0) == Some(r);
    }
  }

  // ----- What flow control holds back

  /** Every interest sent so far is for a chunk of the file, at most four beyond what has been received. */
  ghost predicate SentInWindow(s: State, n: nat) {
    forall i :: 0 <= i < |s.sent| ==> s.sent[i] <= s.receiveCounter + 4 && s.sent[i] < n
  }

  /** An interest for chunk `c` goes out, one that is missing, of the file and in the window. */
  ghost predicate Sends(s: State, t: State, n: nat, c: nat) {
    t.sent == s.sent + [c] && c !in s.received && c < n && c <= s.receiveCounter + 4
  }

  lemma RequestSends(s: State, n: nat, c: nat)
    ensures var t := Requested(s, n, c);
            && t.received == s.received && t.receiveCounter == s.receiveCounter && t.pitCtr == s.pitCtr
            && if c !in s.received && c < n && c <= s.receiveCounter + 4 then Sends(s, t, n, c) else t.sent == s.sent
  {}

  lemma StepSends(s: State, n: nat, e: Event)
    requires SentInWindow(s, n)
    ensures var t := Step(s, n, e);
            SentInWindow(t, n) && (t.sent == s.sent || exists c :: Sends(s, t, n, c))
  {
    hide Requested;
    var t := Step(s, n, e);
    match e
    case Request(c) =>
      RequestSends(s, n, c);
    case RetryFires =>
      if s.retry.Some? {
        RequestSends(s.(retry := None), n, s.retry.value);
        assert t.sent != s.sent ==> Sends(s, t, n, s.retry.value);
      }
    case PeriodicFires =>
      if s.periodic.Some? {
        RequestSends(s.(periodic := None), n, s.periodic.value);
        assert t.sent != s.sent ==> Sends(s, t, n, s.periodic.value);
      }
    case Content(_) =>
    case Interest =>
  }

  lemma {:induction false} RunInWindow(s: State, n: nat, events: seq<Event>)
    requires SentInWindow(s, n)
    ensures SentInWindow(Run(s, n, events), n)
    decreases |events|
  {
    if events != [] {
      StepSends(s, n, events[0]);
      RunInWindow(Step(s, n, events[0]), n, events[1..]);
    }
  }

  /** In every run no interest is ahead of the window or beyond the file, and whatever happens next sends one
      interest at most, for a chunk that is missing then. */
  lemma WindowHolds(n: nat, events: seq<Event>, e: Event)
    ensures var s := Run(Idle(), n, events);
            var t := Step(s, n, e);
            SentInWindow(s, n) && (t.sent == s.sent || exists c :: Sends(s, t, n, c))
  {
    RunInWindow(Idle(), n, events);
    StepSends(Run(Idle(), n, events), n, e);
  }

  // ----- What is received

  /** An interest of another node and the chunk that answers it leave everything as it was. */
  lemma ForwardedLeavesNoTrace(s: State, n: nat, c: nat)
    ensures Run(s, n, [Interest, Content(c)]) == s
  {
    var t := Step(s, n, Interest);
    assert [Interest, Content(c)][1..] == [Content(c)] && [Content(c)][1..] == [];
    assert Run(t, n, [Content(c)]) == Step(t, n, Content(c)) == s.(pitCtr := s.pitCtr + 1 - 1);
  }

  /** The largest of the chunks received, 0 for none. */
  ghost predicate IsLargest(m: nat, received: set<nat>) {
    (forall c :: c in received ==> c <= m) && (m == 0 || m in received)
  }

  lemma {:induction false} RunReceives(s: State, n: nat, events: seq<Event>)
    requires s.pitCtr == 0 && IsLargest(s.receiveCounter, s.received) && Interest !in events
    ensures var t := Run(s, n, events);
            && (forall c :: c in t.received <==> c in s.received || Content(c) in events)
            && IsLargest(t.receiveCounter, t.received)
    decreases |events|
  {
    if events != [] {
      var e, next := events[0], Step(s, n, events[0]);
      assert events == [e] + events[1..];
      StepReceives(s, n, e);
      RunReceives(next, n, events[1..]);
    }
  }

  /** In a run without interests of other nodes exactly the chunks that arrive are received, and
      `receive_counter` is the largest of them. */
  lemma ReceivedIsHeard(n: nat, events: seq<Event>)
    requires Interest !in events
    ensures var s := Run(Idle(), n, events);
            (forall c :: c in s.received <==> Content(c) in events) && IsLargest(s.receiveCounter, s.received)
  {
    RunReceives(Idle(), n, events);
  }

  lemma StepReceives(s: State, n: nat, e: Event)
    requires s.pitCtr == 0 && IsLargest(s.receiveCounter, s.received) && e != Interest
    ensures var t := Step(s, n, e);
            && t.pitCtr == 0 && IsLargest(t.receiveCounter, t.received)
            && forall c :: c in t.received <==> c in s.received || Content(c) == e
  {
    hide Requested;
    match e
    case Request(c) => RequestSends(s, n, c);
    case RetryFires =>
      if s.retry.Some? {
        RequestSends(s.(retry := None), n, s.retry.value);
      }
    case PeriodicFires =>
      if s.periodic.Some? {
        RequestSends(s.(periodic := None), n, s.periodic.value);
      }
    case Content(_) =>
  }

  /** A retry is armed, or nothing is missing. */
  ghost predicate Alive(s: State, n: nat) {
    s.retry.None? ==> Missing(s, n) == {}
  }

  /** Every call made while a chunk is missing leaves a retry armed for the smallest missing one. */
  lemma RequestArms(s: State, n: nat, seqNo: nat)
    ensures var t := Requested(s, n, seqNo);
            && Missing(t, n) == Missing(s, n)
            && (Missing(s, n) != {} ==> t.retry.Some? && t.retry.value in Missing(s, n))
            && (Missing(s, n) != {} ==> forall c :: c in Missing(s, n) ==> t.retry.value <= c)
            && Alive(t, n)
  {
    var m := FirstMissing(s.received, n, 0);
    if m.Some? {
      assert m.value in Missing(s, n);
    } else {
      assert Missing(s, n) == {};
    }
  }

  lemma StepKeepsAlive(s: State, n: nat, e: Event)
    requires Alive(s, n)
    ensures Alive(Step(s, n, e), n)
  {
    match e
    case Request(c) => RequestArms(s, n, c);
    case RetryFires =>
      if s.retry.Some? {
        RequestArms(s.(retry := None), n, s.retry.value);
      }
    case PeriodicFires =>
      if s.periodic.Some? {
        RequestArms(s.(periodic := None), n, s.periodic.value);
      }
    case Content(c) =>
      assert Missing(Heard(s, c), n) <= Missing(s, n);
    case Interest =>
      assert Missing(Step(s, n, e), n) == Missing(s, n);
  }

  lemma {:induction false} RunKeepsAlive(s: State, n: nat, events: seq<Event>)
    requires Alive(s, n)
    ensures Alive(Run(s, n, events), n)
    decreases |events|
  {
    if events != [] {
      StepKeepsAlive(s, n, events[0]);
      RunKeepsAlive(Step(s, n, events[0]), n, events[1..]);
    }
  }

  /** No deadlock: in every run, once a first request has been made, a retry is armed whenever a chunk
      is missing. */
  lemma NeverDeadlocks(n: nat, before: seq<Event>, seqNo: nat, after: seq<Event>)
    ensures Alive(Run(Requested(Run(Idle(), n, before), n, seqNo), n, after), n)
  {
    RequestArms(Run(Idle(), n, before), n, seqNo);
    RunKeepsAlive(Requested(Run(Idle(), n, before), n, seqNo), n, after);
  }

  // ----- All chunks arrive

  /** Two for each missing chunk, one if the armed retry is for a chunk that has arrived, and one for each
      pending interest of another node, which takes a chunk away. */
  function Potential(s: State, n: nat): nat {
    2 * |Missing(s, n)| + (if s.retry.Some? && s.retry.value in s.received then 1 else 0) + s.pitCtr
  }

  function Interests(events: seq<Event>): nat {
    if events == [] then 0 else (if events[0].Interest? then 1 else 0) + Interests(events[1..])
  }

  lemma RequestPotential(s: State, n: nat, seqNo: nat)
    ensures var t := Requested(s, n, seqNo);
            && Potential(t, n) <= Potential(s, n) && t.received == s.received && t.pitCtr == s.pitCtr
            && (Missing(s, n) != {} ==> Potential(t, n) == 2 * |Missing(s, n)| + s.pitCtr)
  {
    RequestArms(s, n, seqNo);
  }

  lemma HeardPotential(s: State, n: nat, seqNo: nat)
    requires Sound(s, n)
    ensures s.received <= Heard(s, seqNo).received <= s.received + {seqNo}
    ensures Potential(Heard(s, seqNo), n) <= Potential(s, n)
    ensures seqNo in Missing(s, n) ==> Potential(Heard(s, seqNo), n) < Potential(s, n)
  {
    if s.pitCtr == 0 {
      assert Missing(Heard(s, seqNo), n) == Missing(s, n) - {seqNo};
    } else {
      assert Missing(Heard(s, seqNo), n) == Missing(s, n);
    }
  }

  /** Only an interest of another node raises the potential, by one; a missing chunk that arrives and a
      retry for a chunk that has arrived lower it. */
  lemma StepPotential(s: State, n: nat, e: Event)
    requires Sound(s, n)
    ensures var t := Step(s, n, e);
            && s.received <= t.received
            && t.received <= s.received + (if e.Content? then {e.seqNo} else {})
            && Potential(t, n) <= Potential(s, n) + Interests([e])
            && (e.Content? && e.seqNo in Missing(s, n) ==> Potential(t, n) < Potential(s, n))
            && (e.RetryFires? && Missing(s, n) != {} && s.retry.Some? && s.retry.value in s.received
                ==> Potential(t, n) < Potential(s, n))
  {
    hide Sound, Missing, Requested, Heard;
    match e
    case Request(c) => RequestPotential(s, n, c);
    case RetryFires =>
      if s.retry.Some? {
        RequestPotential(s.(retry := None), n, s.retry.value);
        SameMissing(s, s.(retry := None), n);
      }
    case PeriodicFires =>
      if s.periodic.Some? {
        RequestPotential(s.(periodic := None), n, s.periodic.value);
        SameMissing(s, s.(periodic := None), n);
      }
    case Content(c) =>
      HeardPotential(s, n, c);
    case Interest =>
      SameMissing(s, s.(pitCtr := s.pitCtr + 1), n);
  }

  lemma SameMissing(s: State, t: State, n: nat)
    requires s.received == t.received
    ensures Missing(s, n) == Missing(t, n)
  {}

  /** A missing chunk that arrives in a run is stored, or an interest of another node takes it away. */
  lemma {:induction false} RunPotential(s: State, n: nat, events: seq<Event>, c: nat)
    requires Sound(s, n)
    ensures var t := Run(s, n, events);
            && s.received <= t.received && Potential(t, n) <= Potential(s, n) + Interests(events)
            && (Content(c) in events && c in Missing(s, n) ==> Potential(t, n) < Potential(s, n) + Interests(events))
    decreases |events|
  {
    if events != [] {
      var e, next := events[0], Step(s, n, events[0]);
      StepKeepsSound(s, n, e);
      StepPotential(s, n, e);
      RunPotential(next, n, events[1..], c);
      assert events == [e] + events[1..];
      hide Sound, Potential;
    }
  }

  /** A round: the retry fires, and if the chunk it is for was missing its content arrives before the
      round ends, with any other events in between. */
  ghost predicate IsRound(s: State, events: seq<Event>) {
    && events != [] && events[0] == RetryFires
    && (s.retry.Some? && s.retry.value !in s.received ==> Content(s.retry.value) in events[1..])
  }

  lemma RoundLowersPotential(s: State, n: nat, events: seq<Event>)
    requires Sound(s, n) && Alive(s, n) && Missing(s, n) != {} && IsRound(s, events)
    ensures Potential(Run(s, n, events), n) < Potential(s, n) + Interests(events)
  {
    var next, c := Step(s, n, RetryFires), s.retry.value;
    StepKeepsSound(s, n, RetryFires);
    StepPotential(s, n, RetryFires);
    assert next.received == s.received;
    RunPotential(next, n, events[1..], c);
  }

  ghost predicate AreRounds(s: State, n: nat, rounds: seq<seq<Event>>)
    decreases |rounds|
  {
    rounds != [] ==> IsRound(s, rounds[0]) && AreRounds(Run(s, n, rounds[0]), n, rounds[1..])
  }

  function RunRounds(s: State, n: nat, rounds: seq<seq<Event>>): State
    decreases |rounds|
  {
    if rounds == [] then s else RunRounds(Run(s, n, rounds[0]), n, rounds[1..])
  }

  function InterestsIn(rounds: seq<seq<Event>>): nat {
    if rounds == [] then 0 else Interests(rounds[0]) + InterestsIn(rounds[1..])
  }

  lemma {:induction false} RoundsLowerPotential(s: State, n: nat, rounds: seq<seq<Event>>)
    requires Sound(s, n) && Alive(s, n) && AreRounds(s, n, rounds)
    ensures var t := RunRounds(s, n, rounds);
            && (Missing(s, n) == {} ==> Missing(t, n) == {})
            && (Missing(t, n) == {} || Potential(t, n) + |rounds| <= Potential(s, n) + InterestsIn(rounds))
    decreases |rounds|
  {
    if rounds != [] {
      var next := Run(s, n, rounds[0]);
      EveryRunIsSound(s, n, rounds[0]);
      RunKeepsAlive(s, n, rounds[0]);
      RunPotential(s, n, rounds[0], 0);
      RoundsLowerPotential(next, n, rounds[1..]);
      if Missing(s, n) != {} {
        RoundLowersPotential(s, n, rounds[0]);
      } else {
        assert Missing(next, n) == {};
      }
    }
  }

  /** All chunks arrive: whatever calls and packets came before, after a request and 2n - 1 rounds, and one
      round more for every interest of another node that is pending or comes in meanwhile, no chunk of the
      file is missing, for every number n of chunks. */
  lemma AllChunksArrive(n: nat, before: seq<Event>, seqNo: nat, rounds: seq<seq<Event>>)
    requires var s := Requested(Run(Idle(), n, before), n, seqNo);
             AreRounds(s, n, rounds) && |rounds| >= 2 * n - 1 + s.pitCtr + InterestsIn(rounds)
    ensures var t := RunRounds(Requested(Run(Idle(), n, before), n, seqNo), n, rounds);
            forall c :: 0 <= c < n ==> c in t.received
  {
    var r := Run(Idle(), n, before);
    var s := Requested(r, n, seqNo);
    EveryRunIsSound(Idle(), n, before);
    StepKeepsSound(r, n, Request(seqNo));
    RequestArms(r, n, seqNo);
    RequestPotential(r, n, seqNo);
    RoundsLowerPotential(s, n, rounds);
    AtMostAll(r, n);
    var t := RunRounds(s, n, rounds);
    hide RunRounds, Requested, Run, AreRounds;
    forall c | 0 <= c < n ensures c in t.received {
      assert c !in Missing(t, n);
    }
  }

  lemma {:induction false} AtMostAll(s: State, n: nat)
    ensures |Missing(s, n)| <= n
  {
    if n > 0 {
      AtMostAll(s, n - 1);
      assert Missing(s, n) <= Missing(s, n - 1) + {n - 1};
      SubsetSize(Missing(s, n), Missing(s, n - 1) + {n - 1});
    }
  }

  /** Below `c` everything has arrived, and the retry is armed for `c`. */
  ghost predicate Reached(s: State, c: nat) {
    s.pitCtr == 0 && s.retry == Some(c) && forall x :: x in s.received <==> 0 <= x < c
  }

  lemma FirstMissingIs(received: set<nat>, n: nat, c: nat)
    requires c < n && c !in received && forall x :: 0 <= x < c ==> x in received
    ensures FirstMissing(received, n, 0) == Some(c)
  {
    var m := FirstMissing(received, n, 0);
    assert m.None? ==> c in received;
  }

  /** A retry answered at once, and then one for a chunk that has arrived. */
  lemma SlowPair(s: State, n: nat, c: nat)
    requires Reached(s, c) && c + 1 < n
    ensures var t := Run(s, n, [RetryFires, Content(c)]);
            && IsRound(s, [RetryFires, Content(c)]) && IsRound(t, [RetryFires])
            && Reached(Run(t, n, [RetryFires]), c + 1)
    ensures Interests([RetryFires, Content(c)]) == Interests([RetryFires]) == 0
  {
    FirstMissingIs(s.received, n, c);
    var fired := Step(s, n, RetryFires);
    assert [RetryFires, Content(c)][1..] == [Content(c)] && [Content(c)][1..] == [];
    assert Run(fired, n, [Content(c)]) == Heard(fired, c);
    var t := Heard(fired, c);
    FirstMissingIs(t.received, n, c + 1);
    assert [RetryFires][1..] == [];
    assert Interests([Content(c)]) == 0;
  }

  /** From there two rounds for every chunk but the last may leave the last one missing. */
  lemma {:induction false} SlowRounds(s: State, n: nat, c: nat) returns (rounds: seq<seq<Event>>)
    requires Reached(s, c) && c < n
    ensures |rounds| == 2 * (n - 1 - c) && InterestsIn(rounds) == 0 && AreRounds(s, n, rounds)
    ensures n - 1 !in RunRounds(s, n, rounds).received
    decreases n - c
  {
    rounds := [];
    if c + 1 < n {
      SlowPair(s, n, c);
      var t := Run(s, n, [RetryFires, Content(c)]);
      var u := Run(t, n, [RetryFires]);
      var rest := SlowRounds(u, n, c + 1);
      rounds := [[RetryFires, Content(c)], [RetryFires]] + rest;
      assert rounds[1..] == [[RetryFires]] + rest && rounds[1..][1..] == rest;
      assert InterestsIn(rounds[1..]) == 0;
      hide Reached, IsRound, Run;
    }
  }

  lemma FirstRequestReaches(n: nat)
    requires n > 0
    ensures Reached(Requested(Idle(), n, 0), 0)
  {}

  /** The bound is exact: after a first request, 2n - 2 rounds without any interest of others can leave the
      last chunk missing. */
  lemma BoundIsExact(n: nat) returns (rounds: seq<seq<Event>>)
    requires n > 0
    ensures var s := Requested(Run(Idle(), n, []), n, 0);
            && |rounds| == 2 * n - 2 + s.pitCtr + InterestsIn(rounds) && AreRounds(s, n, rounds)
            && n - 1 !in RunRounds(s, n, rounds).received
  {
    assert Run(Idle(), n, []) == Idle();
    FirstRequestReaches(n);
    rounds := SlowRounds(Requested(Idle(), n, 0), n, 0);
  }
}
