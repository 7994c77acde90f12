/** The handover of a content store to the next deputy, chunk by chunk: the interests for all data
    that the new deputy sends and the answers of the old one. */
module Handover {
  import opened Common
  import opened ContentStore

  const CACHE_SIZE := 20
  const INT_RETRIES := 3

  datatype State = Deputy | HandingOver | Inactive | Stopped

  datatype Reply = Content(chunk: Chunk, num: nat) | Ack(num: nat) | Silence

  /** The entry is counted: the node is registered for nothing, or the name starts with the prefix
      `/t/` and the registered character that `ccnl_helper_subsribe` builds. */
  predicate Matches(e: Entry, reg: Registration) {
    reg.None? || (e.chunk.source.site == "t" && e.chunk.source.kind == [reg.value])
  }

  /** How many of the first `k` entries the walk of the producer counts. */
  function Count(es: seq<Entry>, reg: Registration, k: nat): (n: nat)
    requires k <= |es|
    ensures n <= k
  {
    if k == 0 then 0 else Count(es, reg, k - 1) + if Matches(es[k - 1], reg) then 1 else 0
  }

  /** Where the walk stops that starts at `k`: after `limit` counted entries or at the end. */
  function Walk(es: seq<Entry>, reg: Registration, limit: int, k: nat): (s: nat)
    requires k <= |es|
    ensures k <= s <= |es|
    ensures s < |es| ==> Count(es, reg, s) >= limit
    ensures forall j :: k <= j < s ==> Count(es, reg, j) < limit
    decreases |es| - k
  {
    if k < |es| && Count(es, reg, k) < limit then Walk(es, reg, limit, k + 1) else k
  }

  function Limit(pos: int): int { if pos < CACHE_SIZE then pos else CACHE_SIZE }

  /** The answer to a request for chunk number `pos`. */
  function ReplyTo(es: seq<Entry>, reg: Registration, pos: int): (r: Reply)
    ensures !r.Silence? && (r.Content? ==> pos < CACHE_SIZE)
  {
    var k := Walk(es, reg, Limit(pos), 0);
    var i := Count(es, reg, k);
    if i >= CACHE_SIZE || k == |es| then Ack(i) else Content(es[k].chunk, i)
  }

  /** The counted entries are those whose name starts with the components that the node is registered for. */
  lemma CountedIff(e: Entry, reg: Registration)
    ensures var s := e.chunk.source;
            Count([e], reg, 1) == if reg.None? || ["t", [reg.value]] <= [s.site, s.kind, s.id] then 1 else 0
  {
    assert Count([e], reg, 0) == 0;
    var s := e.chunk.source;
    if reg.Some? {
      var prefix, name := ["t", [reg.value]], [s.site, s.kind, s.id];
      assert prefix <= name <==> prefix[0] == name[0] && prefix[1] == name[1];
    }
  }

  /** An answer carries the number that was asked for, an acknowledgement how many of the first twenty of
      the counted entries there are. */
  lemma AnswerNumbers(es: seq<Entry>, reg: Registration, pos: nat)
    ensures match ReplyTo(es, reg, pos)
            case Content(_, num) => num == pos < 20 && num <= Count(es, reg, |es|)
            case Ack(num) => num == (if Count(es, reg, |es|) < 20 then Count(es, reg, |es|) else 20) <= pos
            case Silence => false
  {
    var k := Walk(es, reg, Limit(pos), 0);
    CountGrows(es, reg, |es|);
    CountGrows(es, reg, k);
    CountStep(es, reg, k);
  }

  /** A number below 0 other than -1 asks for the first chunk. */
  lemma NegativeNumbers(es: seq<Entry>, reg: Registration, pos: int)
    requires pos < 0
    ensures ReplyTo(es, reg, pos) == ReplyTo(es, reg, 0)
    ensures ReplyTo(es, reg, pos) == if es == [] then Ack(0) else Content(es[0].chunk, 0)
  {
    assert Count(es, reg, 0) == 0;
  }

  lemma CountStep(es: seq<Entry>, reg: Registration, k: nat)
    requires k <= |es|
    ensures k > 0 ==> Count(es, reg, k) <= Count(es, reg, k - 1) + 1
  {}

  /** The request for chunk number `pos` is answered with entry `k`. */
  ghost predicate Serves(es: seq<Entry>, reg: Registration, pos: nat, k: nat) {
    Walk(es, reg, Limit(pos), 0) == k && ReplyTo(es, reg, pos).Content?
  }

  ghost predicate Sent(es: seq<Entry>, reg: Registration, k: nat) {
    exists pos: nat :: Serves(es, reg, pos, k)
  }

  /** An entry is ever sent exactly when it is the first or follows a counted entry, and fewer than
      CACHE_SIZE entries before it are counted. */
  lemma SentIff(es: seq<Entry>, reg: Registration, k: nat)
    requires k < |es|
    ensures Sent(es, reg, k) <==> Count(es, reg, k) < CACHE_SIZE && (k == 0 || Matches(es[k - 1], reg))
  {
    if Count(es, reg, k) < CACHE_SIZE && (k == 0 || Matches(es[k - 1], reg)) {
      CountGrows(es, reg, k);
      assert Serves(es, reg, Count(es, reg, k), k);
    }
    forall pos: nat | Serves(es, reg, pos, k)
      ensures Count(es, reg, k) < CACHE_SIZE && (k == 0 || Matches(es[k - 1], reg))
    {
      assert k > 0 ==> Count(es, reg, k - 1) < Limit(pos) <= Count(es, reg, k);
    }
  }

  /** No entry answers two requests. */
  lemma SentOnce(es: seq<Entry>, reg: Registration, k: nat, pos: nat, other: nat)
    requires k < |es| && Serves(es, reg, pos, k) && Serves(es, reg, other, k)
    ensures pos == other == Count(es, reg, k)
  {
    if k > 0 {
      assert Count(es, reg, k - 1) < Limit(pos) <= Count(es, reg, k);
      assert Count(es, reg, k - 1) < Limit(other) <= Count(es, reg, k);
    }
  }

  lemma {:induction false} CountGrows(es: seq<Entry>, reg: Registration, k: nat)
    requires k <= |es|
    ensures forall j :: 0 <= j < k ==> Count(es, reg, j) <= Count(es, reg, k)
    ensures k > 0 && Matches(es[k - 1], reg) ==> forall j :: 0 <= j < k ==> Count(es, reg, j) < Count(es, reg, k)
  {
    if k > 0 {
      CountGrows(es, reg, k - 1);
    }
  }

  /** Every entry of interest is sent exactly when there are at most CACHE_SIZE of them and they come
      first in the store; a node that is registered for nothing is interested in all of them. */
  lemma AllOfInterestSentIff(es: seq<Entry>, reg: Registration)
    ensures (forall k :: 0 <= k < |es| && Matches(es[k], reg) ==> Sent(es, reg, k))
       <==> && Count(es, reg, |es|) <= CACHE_SIZE
            && forall k :: 0 < k < |es| && Matches(es[k], reg) ==> Matches(es[k - 1], reg)
  {
    hide Sent, Matches, Walk, ReplyTo;
    forall k | 0 <= k < |es|
      ensures Sent(es, reg, k) <==> Count(es, reg, k) < CACHE_SIZE && (k == 0 || Matches(es[k - 1], reg))
    {
      SentIff(es, reg, k);
    }
    LastCounted(es, reg, |es|);
  }

  /** The last counted entry has all others before it. */
  lemma {:induction false} LastCounted(es: seq<Entry>, reg: Registration, n: nat)
    requires n <= |es|
    ensures forall k :: 0 <= k < n && Matches(es[k], reg) ==> Count(es, reg, k) < Count(es, reg, n)
    ensures Count(es, reg, n) > 0 ==>
            exists k :: 0 <= k < n && Matches(es[k], reg) && Count(es, reg, k) == Count(es, reg, n) - 1
  {
    if n > 0 {
      LastCounted(es, reg, n - 1);
    }
  }

  /** A node registered for `x` with entries of kinds x, y, x never sends the last one. */
  lemma RegisteredSkips(x: Entry, y: Entry, z: Entry, reg: Registration)
    requires Matches(x, reg) && !Matches(y, reg) && Matches(z, reg)
    ensures !Sent([x, y, z], reg, 2)
  {
    SentIff([x, y, z], reg, 2);
  }

  lemma {:induction false} CountAll(es: seq<Entry>, k: nat)
    requires k <= |es|
    ensures Count(es, None, k) == k
  {
    if k > 0 {
      CountAll(es, k - 1);
    }
  }

  /** An unregistered deputy answers request `pos` with entry `pos`, and acknowledges after the last
      entry or after CACHE_SIZE of them. */
  lemma UnregisteredReply(es: seq<Entry>, pos: nat)
    ensures ReplyTo(es, None, pos) ==
            if pos < |es| && pos < CACHE_SIZE then Content(es[pos].chunk, pos)
            else Ack(if |es| < CACHE_SIZE then |es| else CACHE_SIZE)
  {
    var k := Walk(es, None, Limit(pos), 0);
    CountAll(es, k);
    if k > 0 {
      CountAll(es, k - 1);
    }
    if pos < |es| && pos < CACHE_SIZE {
      assert k == pos;
    }
  }

  // ----- What is handed over

  /** The chunks that answer requests `pos`, `pos + 1`, ... until the acknowledgement. */
  function Offered(es: seq<Entry>, reg: Registration, pos: nat): seq<Chunk>
    decreases CACHE_SIZE - pos
  {
    var r := ReplyTo(es, reg, pos);
    if r.Content? then [r.chunk] + Offered(es, reg, pos + 1) else []
  }

  /** When a request is answered with a chunk, so is every smaller one, from no later an entry. */
  lemma ContentBelow(es: seq<Entry>, reg: Registration, pos: nat, less: nat)
    requires less <= pos && ReplyTo(es, reg, pos).Content?
    ensures ReplyTo(es, reg, less).Content?
    ensures Walk(es, reg, Limit(less), 0) <= Walk(es, reg, Limit(pos), 0)
  {
    var k, s := Walk(es, reg, Limit(pos), 0), Walk(es, reg, Limit(less), 0);
    CountGrows(es, reg, k);
    assert s <= k;
  }

  /** Request `p` is answered exactly when the chunks from request `from` on reach as far, and with the
      chunk at its place. */
  lemma {:induction false} OfferedAt(es: seq<Entry>, reg: Registration, from: nat, p: nat)
    requires from <= p
    ensures p - from < |Offered(es, reg, from)| <==> ReplyTo(es, reg, p).Content?
    ensures p - from < |Offered(es, reg, from)| ==> Offered(es, reg, from)[p - from] == ReplyTo(es, reg, p).chunk
    decreases p - from
  {
    hide ReplyTo;
    if from < p {
      OfferedAt(es, reg, from + 1, p);
      if ReplyTo(es, reg, p).Content? {
        ContentBelow(es, reg, p, from);
      }
    }
  }

  /** The chunks handed over are exactly those of the entries that are ever sent, each in its place. */
  lemma SentIsOffered(es: seq<Entry>, reg: Registration, k: nat)
    requires k < |es| && Sent(es, reg, k)
    ensures var p := Count(es, reg, k);
            p < |Offered(es, reg, 0)| && Offered(es, reg, 0)[p] == es[k].chunk
  {
    hide Offered;
    var pos: nat :| Serves(es, reg, pos, k);
    SentOnce(es, reg, k, pos, pos);
    OfferedAt(es, reg, 0, pos);
  }

  /** An unregistered deputy hands over its whole store in order, up to CACHE_SIZE entries. */
  lemma UnregisteredOffer(es: seq<Entry>)
    ensures Offered(es, None, 0) == Chunks(First(es))
  {
    UnregisteredFrom(es, 0);
    assert Chunks(First(es))[0..] == Chunks(First(es));
  }

  lemma {:induction false} UnregisteredFrom(es: seq<Entry>, pos: nat)
    requires pos <= |First(es)|
    ensures Offered(es, None, pos) == Chunks(First(es))[pos..]
    decreases |First(es)| - pos
  {
    hide ReplyTo;
    UnregisteredReply(es, pos);
    if pos < |First(es)| {
      UnregisteredFrom(es, pos + 1);
      assert Chunks(First(es))[pos..] == [es[pos].chunk] + Chunks(First(es))[pos + 1..];
    }
  }

  // ----- The two nodes

  predicate IsDup(es: seq<Entry>, c: Chunk) { exists i :: 0 <= i < |es| && es[i].chunk == c }

  /** A deputy's store after a chunk: one that it has already is not handled again. */
  function Absorbed(es: seq<Entry>, capacity: int, reg: Registration, c: Chunk): seq<Entry> {
    if IsDup(es, c) then es else Handle(es, capacity, reg, c).0
  }

  function AbsorbedAll(es: seq<Entry>, capacity: int, reg: Registration, cs: seq<Chunk>): seq<Entry> {
    if |cs| == 0 then es
    else Absorbed(AbsorbedAll(es, capacity, reg, cs[..|cs| - 1]), capacity, reg, cs[|cs| - 1])
  }

  function Chunks(es: seq<Entry>): (r: seq<Chunk>)
    ensures |r| == |es|
  {
    seq(|es|, i requires 0 <= i < |es| => es[i].chunk)
  }

  /** What becomes of one interest and its answer. */
  datatype Outcome = Delivered | InterestLost | AnswerLost

  class Node {
    var state: State
    const relay: Relay
    /** DOW_MSG_INACTIVE is in the queue of the node. */
    var toldToSleep: bool

    constructor (s: State, r: Relay)
      ensures state == s && relay == r && !toldToSleep
    {
      state, relay, toldToSleep := s, r, false;
    }

    /** `ccnlriot_consumer` for a chunk of another node without a pending interest. */
    method Consumer(c: Chunk)
      modifies relay`contents
      ensures relay.contents ==
        if state == Deputy then Absorbed(old(relay.contents), relay.maxCacheEntries, relay.registration, c)
        else old(relay.contents)
    {
      if state == Stopped || state == HandingOver {
        return;
      }
      if state == Deputy && !IsDup(relay.contents, c) {
        var ok := relay.HandleContent(c);
      }
    }

    /** `ccnlriot_producer` for an interest for all data; chunk number -1 stands for none. */
    method Producer(pos: int) returns (r: Reply)
      modifies this
      ensures old(state) == Stopped || old(state) == Inactive || pos == -1 ==>
        r == Silence && state == old(state) && toldToSleep == old(toldToSleep)
      ensures (old(state) == Deputy || old(state) == HandingOver) && pos != -1 ==>
        && r == ReplyTo(relay.contents, relay.registration, pos)
        && state == HandingOver && toldToSleep == (old(toldToSleep) || r.Ack?)
    {
      if state == Stopped || state == Inactive || pos == -1 {
        return Silence;
      }
      state := HandingOver;
      var es, reg := relay.contents, relay.registration;
      var cit, i := 0, 0;
      while i < pos && i < CACHE_SIZE && cit < |es|
        invariant cit <= |es| && i == Count(es, reg, cit)
        invariant Walk(es, reg, Limit(pos), cit) == Walk(es, reg, Limit(pos), 0)
        decreases |es| - cit
      {
        if Matches(es[cit], reg) {
          i := i + 1;
        }
        cit := cit + 1;
      }
      if i >= CACHE_SIZE || cit == |es| {
        toldToSleep := true;
        return Ack(i);
      }
      r := Content(es[cit].chunk, i);
    }

    /** The event loop takes DOW_MSG_INACTIVE out of the queue. */
    method GoInactive()
      modifies this
      ensures state == (if old(toldToSleep) then Inactive else old(state)) && !toldToSleep
    {
      if toldToSleep {
        state, toldToSleep := Inactive, false;
      }
    }

    /** Chunks arrive one after the other. */
    method Hear(cs: seq<Chunk>)
      modifies relay`contents
      ensures relay.contents ==
        if state == Deputy then AbsorbedAll(old(relay.contents), relay.maxCacheEntries, relay.registration, cs)
        else old(relay.contents)
    {
      hide Absorbed, AbsorbedAll;
      AbsorbedNothing(relay.contents, relay.maxCacheEntries, relay.registration);
      for i := 0 to |cs|
        invariant relay.contents ==
          if state == Deputy then AbsorbedAll(old(relay.contents), relay.maxCacheEntries, relay.registration, cs[..i])
          else old(relay.contents)
      {
        Consumer(cs[i]);
        AbsorbedStep(old(relay.contents), relay.maxCacheEntries, relay.registration, cs[..i], cs[i]);
        assert cs[..i + 1] == cs[..i] + [cs[i]];
      }
      assert cs[..|cs|] == cs;
    }

    /** One interest: it reaches the old deputy or not, its answer comes back or not, and the old deputy
        hears other nodes afterwards. */
    method Try(previous: Node, pos: nat, outcome: Outcome, noise: seq<Chunk>) returns (r: Reply)
      requires previous != this && previous.relay != relay
      modifies previous, previous.relay`contents
      ensures old(previous.state) != Deputy ==> previous.state != Deputy
      ensures old(previous.state) != Deputy || (outcome != InterestLost && !old(previous.toldToSleep)) ==>
        previous.relay.contents == old(previous.relay.contents)
      ensures Asleep(old(previous.state), old(previous.toldToSleep)) ==>
        r == Silence && Asleep(previous.state, previous.toldToSleep)
      ensures Serving(old(previous.state), old(previous.toldToSleep)) ==>
        if outcome == InterestLost then
          r == Silence && previous.state == old(previous.state) && !previous.toldToSleep
        else
          var answer := ReplyTo(old(previous.relay.contents), previous.relay.registration, pos);
          && Contacted(previous.state, previous.toldToSleep, answer, r)
          && r == if outcome == Delivered then answer else Silence
    {
      r := Silence;
      if outcome != InterestLost {
        var answer := previous.Producer(pos);
        if outcome == Delivered {
          r := answer;
        }
      }
      previous.GoInactive();
      previous.Hear(noise);
    }

    /** `ccnl_helper_int` for all data: an interest up to INT_RETRIES times until something comes
        back. What the network does with the `k`-th interest of the takeover is `net(k)`, and
        `noise(k)` are the chunks of other nodes that the old deputy hears after it. If one of the
        tries gets through, so does the chunk, and the store it comes from is frozen; of an
        acknowledgement it is only sure that the old deputy goes to sleep. */
    method Request(previous: Node, pos: nat, net: nat -> Outcome, noise: nat -> seq<Chunk>, from: nat)
      returns (r: Reply, sent: nat)
      requires previous != this && previous.relay != relay
      modifies previous, previous.relay`contents
      ensures sent <= INT_RETRIES
      ensures old(previous.state) != Deputy ==>
        previous.state != Deputy && previous.relay.contents == old(previous.relay.contents)
      ensures Asleep(old(previous.state), old(previous.toldToSleep)) ==>
        r == Silence && Asleep(previous.state, previous.toldToSleep)
      ensures Serving(old(previous.state), old(previous.toldToSleep)) ==>
        && (Serving(previous.state, previous.toldToSleep) || Asleep(previous.state, previous.toldToSleep))
        && (r.Content? ==> previous.state == HandingOver)
        && (r.Content? ==> r == ReplyTo(previous.relay.contents, previous.relay.registration, pos))
      ensures Serving(old(previous.state), old(previous.toldToSleep)) && TryDelivered(net, from) ==>
        var answer := ReplyTo(previous.relay.contents, previous.relay.registration, pos);
        Answered(previous.state, previous.toldToSleep, answer, r)
      ensures Serving(old(previous.state), old(previous.toldToSleep)) && net(from) == Delivered ==>
        && r == ReplyTo(old(previous.relay.contents), previous.relay.registration, pos) && sent == 1
        && previous.relay.contents == old(previous.relay.contents)
    {
      hide ReplyTo;
      r, sent := Silence, 0;
      ghost var serving := Serving(previous.state, previous.toldToSleep);
      while sent < INT_RETRIES && r.Silence?
        invariant sent <= INT_RETRIES && (sent == 0 ==> r == Silence)
        invariant old(previous.state) != Deputy ==>
          previous.state != Deputy && previous.relay.contents == old(previous.relay.contents)
        invariant Asleep(old(previous.state), old(previous.toldToSleep)) ==>
          r == Silence && Asleep(previous.state, previous.toldToSleep)
        invariant serving ==> (
          var answer := ReplyTo(previous.relay.contents, previous.relay.registration, pos);
          || (r == Silence && Serving(previous.state, previous.toldToSleep) && NoneReaches(net, from, sent))
          || (&& Contacted(previous.state, previous.toldToSleep, answer, r)
              && (r.Silence? && answer.Content? ==> NoneDelivered(net, from, sent))))
        invariant serving && sent > 0 && net(from) == Delivered ==>
          && r == ReplyTo(old(previous.relay.contents), previous.relay.registration, pos) && sent == 1
          && previous.relay.contents == old(previous.relay.contents)
        invariant serving && sent == 0 ==>
          Serving(previous.state, previous.toldToSleep) && previous.relay.contents == old(previous.relay.contents)
        decreases INT_RETRIES - sent
      {
        r := Try(previous, pos, net(from + sent), noise(from + sent));
        sent := sent + 1;
      }
    }

    /** `dow_takeover`: request chunk numbers 0, 1, 2, ... until the acknowledgement. The node sends
        at most (CACHE_SIZE + 2) * INT_RETRIES interests whatever is lost, and receives nothing but
        what the old deputy offers, in order and each entry at most once. As long as never INT_RETRIES
        tries in a row are lost, it receives all of that; when nothing is lost, with one interest for each
        chunk and one for the acknowledgement. */
    method Takeover(previous: Node, net: nat -> Outcome, noise: nat -> seq<Chunk>)
      returns (sent: nat, received: seq<Chunk>)
      requires previous != this && previous.relay != relay
      modifies this, relay`contents, previous, previous.relay`contents
      ensures state == Deputy && sent <= (CACHE_SIZE + 2) * INT_RETRIES == 66
      ensures relay.contents ==
        AbsorbedAll(old(relay.contents), relay.maxCacheEntries, relay.registration, received)
      ensures Serving(old(previous.state), old(previous.toldToSleep)) ==>
        && (forall c :: c in received ==> c in Offered(previous.relay.contents, previous.relay.registration, 0))
        && SubsequenceOf(received, Offered(previous.relay.contents, previous.relay.registration, 0))
      ensures Serving(old(previous.state), old(previous.toldToSleep)) && GetsThrough(net) ==>
        && received == Offered(previous.relay.contents, previous.relay.registration, 0)
        && previous.state == Inactive
      ensures Serving(old(previous.state), old(previous.toldToSleep)) && Lossless(net) ==>
        previous.relay.contents == old(previous.relay.contents) && sent == |received| + 1
    {
      hide AbsorbedAll, Absorbed, ReplyTo, Walk, Count, Offered, Enumerated, ReceivedUpTo, SubsequenceOf;
      NothingReceived(Offered(previous.relay.contents, previous.relay.registration, 0));
      state := Deputy;
      if Serving(previous.state, previous.toldToSleep) {
        StartOfEnumeration(previous.state, previous.toldToSleep, previous.relay.contents, previous.relay.registration);
      }
      ghost var es, serving := previous.relay.contents, Serving(previous.state, previous.toldToSleep);
      var cn, more := 0, true;
      sent, received := 0, [];
      if Lossless(net) {
        LosslessGetsThrough(net);
      }
      AbsorbedNothing(relay.contents, relay.maxCacheEntries, relay.registration);
      while more
        invariant state == Deputy && 0 <= cn <= CACHE_SIZE + 1
        invariant sent <= (if more then cn else cn + 1) * INT_RETRIES
        invariant relay.contents ==
          AbsorbedAll(old(relay.contents), relay.maxCacheEntries, relay.registration, received)
        invariant serving ==>
          && (Serving(previous.state, previous.toldToSleep) || Asleep(previous.state, previous.toldToSleep))
          && (received != [] ==> previous.state != Deputy)
          && ReceivedUpTo(received, Offered(previous.relay.contents, previous.relay.registration, 0),
                          if more then cn else cn + 1)
        invariant serving && GetsThrough(net) ==>
          Enumerated(previous.state, previous.toldToSleep, previous.relay.contents, previous.relay.registration,
                     received, cn, more)
        invariant serving && Lossless(net) ==>
          && previous.relay.contents == es
          && (more ==> Serving(previous.state, previous.toldToSleep) && |received| == sent == cn)
          && (!more ==> sent == |received| + 1)
        decreases more, CACHE_SIZE + 1 - cn
      {
        ghost var was := (previous.state, previous.toldToSleep, previous.relay.contents);
        var r, k := Request(previous, cn, net, noise, sent);
        if serving && GetsThrough(net) {
          EnumerationStep(was.0, was.1, was.2, previous.state, previous.toldToSleep, previous.relay.contents,
                          previous.relay.registration, received, cn, r);
        }
        sent := sent + k;
        NothingReceived(Offered(previous.relay.contents, previous.relay.registration, 0));
        if r.Content? {
          OfferedAt(previous.relay.contents, previous.relay.registration, 0, cn);
          ReceivedNext(received, Offered(previous.relay.contents, previous.relay.registration, 0), cn);
          Consumer(r.chunk);
          AbsorbedStep(old(relay.contents), relay.maxCacheEntries, relay.registration, received, r.chunk);
          received := received + [r.chunk];
        } else {
          ReceivedNothing(received, Offered(previous.relay.contents, previous.relay.registration, 0), cn);
        }
        more := !r.Ack? && cn <= CACHE_SIZE;
        if more {
          cn := cn + 1;
        }
      }
      ReceivedInOrder(received, Offered(previous.relay.contents, previous.relay.registration, 0), cn + 1);
      SubsequenceIn(received, Offered(previous.relay.contents, previous.relay.registration, 0));
      if serving && GetsThrough(net) {
        EndOfEnumeration(previous.state, previous.toldToSleep, previous.relay.contents, previous.relay.registration,
                         received, cn);
      }
    }
  }

  lemma AbsorbedStep(es: seq<Entry>, capacity: int, reg: Registration, cs: seq<Chunk>, c: Chunk)
    ensures AbsorbedAll(es, capacity, reg, cs + [c]) == Absorbed(AbsorbedAll(es, capacity, reg, cs), capacity, reg, c)
  {
    assert (cs + [c])[..|cs|] == cs;
  }

  lemma AbsorbedNothing(es: seq<Entry>, capacity: int, reg: Registration)
    ensures AbsorbedAll(es, capacity, reg, []) == es
  {}

  ghost predicate Lossless(net: nat -> Outcome) { forall k :: net(k) == Delivered }

  /** One of INT_RETRIES interests from the `k`-th on gets through, and its answer as well. */
  ghost predicate TryDelivered(net: nat -> Outcome, k: nat) {
    exists j :: k <= j < k + INT_RETRIES && net(j) == Delivered
  }

  ghost predicate GetsThrough(net: nat -> Outcome) { forall k :: TryDelivered(net, k) }

  lemma LosslessGetsThrough(net: nat -> Outcome)
    requires Lossless(net)
    ensures GetsThrough(net)
  {
    forall k ensures TryDelivered(net, k) {
      assert net(k) == Delivered;
    }
  }

  /** As much of a store as is handed over. */
  function First(es: seq<Entry>): seq<Entry> { if |es| < CACHE_SIZE then es else es[..CACHE_SIZE] }

  /** A node that answers requests: a deputy, or one that hands over and has not acknowledged. */
  ghost predicate Serving(s: State, toldToSleep: bool) { (s == Deputy || s == HandingOver) && !toldToSleep }

  ghost predicate Asleep(s: State, toldToSleep: bool) { s == Inactive && !toldToSleep }

  /** The old deputy after a request that reached it, `answer` being what it answers. */
  ghost predicate Contacted(s: State, toldToSleep: bool, answer: Reply, r: Reply) {
    && !toldToSleep && s == (if answer.Ack? then Inactive else HandingOver)
    && (r.Silence? || r == answer) && !answer.Silence?
  }

  ghost predicate Answered(s: State, toldToSleep: bool, answer: Reply, r: Reply) {
    Contacted(s, toldToSleep, answer, r) && (answer.Content? ==> r == answer)
  }

  ghost predicate NoneReaches(net: nat -> Outcome, from: nat, n: nat) {
    forall k :: from <= k < from + n ==> net(k) == InterestLost
  }

  ghost predicate NoneDelivered(net: nat -> Outcome, from: nat, n: nat) {
    forall k :: from <= k < from + n ==> net(k) != Delivered
  }

  /** A takeover up to request `cn`: the old deputy has acknowledged and everything it offers has been
      received, or its store is frozen from the first chunk on and the rest is still to come. */
  ghost predicate Enumerated(s: State, toldToSleep: bool, es: seq<Entry>, reg: Registration, received: seq<Chunk>,
      cn: nat, more: bool)
  {
    || (Asleep(s, toldToSleep) && received == Offered(es, reg, 0))
    || (&& Serving(s, toldToSleep) && more && |received| == cn && (cn > 0 ==> s == HandingOver)
        && Offered(es, reg, 0) == received + Offered(es, reg, cn))
  }

  /** The one list is the other with some places left out. */
  ghost predicate SubsequenceOf(a: seq<Chunk>, b: seq<Chunk>)
    decreases |b|
  {
    a == [] ||
    (b != [] &&
     var rest := b[..|b| - 1];
     SubsequenceOf(a, rest) || (a[|a| - 1] == b[|b| - 1] && SubsequenceOf(a[..|a| - 1], rest)))
  }

  /** Its elements are at increasing places of the other. */
  lemma {:induction false} SubsequencePlaces(a: seq<Chunk>, b: seq<Chunk>) returns (places: seq<nat>)
    requires SubsequenceOf(a, b)
    ensures |places| == |a|
    ensures forall i :: 0 <= i < |a| ==> places[i] < |b| && a[i] == b[places[i]]
    ensures forall i, j :: 0 <= i < j < |a| ==> places[i] < places[j]
    decreases |b|
  {
    places := [];
    if a != [] {
      var rest := b[..|b| - 1];
      if SubsequenceOf(a, rest) {
        places := SubsequencePlaces(a, rest);
      } else {
        places := SubsequencePlaces(a[..|a| - 1], rest);
        places := places + [|b| - 1];
      }
    }
  }

  function UpTo(b: seq<Chunk>, n: nat): seq<Chunk> { if n < |b| then b[..n] else b }

  /** The answers to the requests before `n`, with those left out that were lost. */
  ghost predicate ReceivedUpTo(a: seq<Chunk>, b: seq<Chunk>, n: nat) { SubsequenceOf(a, UpTo(b, n)) }

  lemma NothingReceived(b: seq<Chunk>)
    ensures forall n :: ReceivedUpTo([], b, n)
  {}

  lemma ReceivedNothing(a: seq<Chunk>, b: seq<Chunk>, n: nat)
    ensures ReceivedUpTo(a, b, n) ==> ReceivedUpTo(a, b, n + 1)
  {
    if n < |b| {
      assert UpTo(b, n + 1)[..n] == UpTo(b, n);
    }
  }

  lemma ReceivedNext(a: seq<Chunk>, b: seq<Chunk>, n: nat)
    ensures ReceivedUpTo(a, b, n) && n < |b| ==> ReceivedUpTo(a + [b[n]], b, n + 1)
  {
    if n < |b| {
      assert UpTo(b, n + 1)[..n] == UpTo(b, n) && (a + [b[n]])[..|a|] == a;
    }
  }

  lemma {:induction false} ReceivedInOrder(a: seq<Chunk>, b: seq<Chunk>, n: nat)
    ensures ReceivedUpTo(a, b, n) ==> SubsequenceOf(a, b)
    decreases |b| - n
  {
    if n < |b| {
      ReceivedNothing(a, b, n);
      ReceivedInOrder(a, b, n + 1);
    }
  }

  lemma {:induction false} SubsequenceIn(a: seq<Chunk>, b: seq<Chunk>)
    ensures SubsequenceOf(a, b) ==> forall c :: c in a ==> c in b
    decreases |b|
  {
    if a != [] && b != [] {
      SubsequenceIn(a, b[..|b| - 1]);
      SubsequenceIn(a[..|a| - 1], b[..|b| - 1]);
      assert a == a[..|a| - 1] + [a[|a| - 1]];
    }
  }

  lemma StartOfEnumeration(s: State, toldToSleep: bool, es: seq<Entry>, reg: Registration)
    requires Serving(s, toldToSleep)
    ensures Enumerated(s, toldToSleep, es, reg, [], 0, true)
  {
    assert Offered(es, reg, 0) == [] + Offered(es, reg, 0);
  }

  lemma EndOfEnumeration(s: State, toldToSleep: bool, es: seq<Entry>, reg: Registration, received: seq<Chunk>,
      cn: nat)
    requires Enumerated(s, toldToSleep, es, reg, received, cn, false)
    ensures Asleep(s, toldToSleep) && received == Offered(es, reg, 0)
  {}

  lemma EnumerationStep(s: State, told: bool, es: seq<Entry>, s': State, told': bool, es': seq<Entry>,
      reg: Registration, received: seq<Chunk>, cn: nat, r: Reply)
    requires Enumerated(s, told, es, reg, received, cn, true)
    requires s != Deputy ==> es' == es
    requires Asleep(s, told) ==> r == Silence && Asleep(s', told')
    requires Serving(s, told) ==> Answered(s', told', ReplyTo(es', reg, cn), r)
    ensures var more := !r.Ack? && cn <= CACHE_SIZE;
            Enumerated(s', told', es', reg, if r.Content? then received + [r.chunk] else received,
                       if more then cn + 1 else cn, more)
  {
    hide Offered, ReplyTo, Walk, Count;
    if Serving(s, told) {
      NextOffered(es', reg, received, cn);
      if cn == 0 {
        assert received == [] && Offered(es', reg, 0) == received + Offered(es', reg, cn);
      }
    }
  }

  lemma NextOffered(es: seq<Entry>, reg: Registration, received: seq<Chunk>, pos: nat)
    ensures var r := ReplyTo(es, reg, pos);
            received + Offered(es, reg, pos) ==
            if r.Content? then received + [r.chunk] + Offered(es, reg, pos + 1) else received
  {
    hide ReplyTo;
    var r := ReplyTo(es, reg, pos);
    if r.Content? {
      assert received + ([r.chunk] + Offered(es, reg, pos + 1)) == received + [r.chunk] + Offered(es, reg, pos + 1);
    }
  }
}
