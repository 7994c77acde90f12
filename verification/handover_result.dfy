/** What the new deputy's store is after a handover, and what the order of the handover does to it. */
module HandoverResult {
  import opened Common
  import opened ContentStore
  import opened ContentStoreProperties
  import opened ContentStoreRuns
  import opened Handover

  ghost predicate Holds(es: seq<Entry>, c: Chunk) { exists i :: 0 <= i < |es| && es[i].chunk == c }

  /** Whatever is received, the newest value of every source stays flagged. */
  lemma {:induction false} TakeoverKeepsSound(es: seq<Entry>, capacity: int, reg: Registration, cs: seq<Chunk>)
    requires Sound(es, capacity) && forall c :: c in cs ==> c.ts > 0
    ensures Sound(AbsorbedAll(es, capacity, reg, cs), capacity)
  {
    if |cs| > 0 {
      TakeoverKeepsSound(es, capacity, reg, cs[..|cs| - 1]);
      assert cs[|cs| - 1] in cs;
      HandleKeepsSound(AbsorbedAll(es, capacity, reg, cs[..|cs| - 1]), capacity, reg, cs[|cs| - 1]);
    }
  }

  /** With room for them, the new deputy has every chunk that it had or received. */
  lemma {:induction false} TakeoverLosesNothing(es: seq<Entry>, capacity: int, reg: Registration, cs: seq<Chunk>)
    requires capacity < 0 || (capacity > 0 && |es| + |cs| <= capacity)
    ensures var r := AbsorbedAll(es, capacity, reg, cs);
            && |r| <= |es| + |cs|
            && (forall i :: 0 <= i < |es| ==> Holds(r, es[i].chunk))
            && (forall i :: 0 <= i < |cs| ==> Holds(r, cs[i]))
  {
    if |cs| > 0 {
      var before, c := cs[..|cs| - 1], cs[|cs| - 1];
      TakeoverLosesNothing(es, capacity, reg, before);
      var s := AbsorbedAll(es, capacity, reg, before);
      AbsorbedHolds(s, capacity, reg, c);
      hide Absorbed, Holds;
      forall i | 0 <= i < |cs| ensures Holds(Absorbed(s, capacity, reg, c), cs[i]) {
        if i < |before| {
          assert cs[i] == before[i] && Holds(s, before[i]);
        }
      }
    }
  }

  lemma AbsorbedHolds(es: seq<Entry>, capacity: int, reg: Registration, c: Chunk)
    requires capacity < 0 || |es| < capacity
    ensures var r := Absorbed(es, capacity, reg, c);
            |r| <= |es| + 1 && Holds(r, c) && forall x :: Holds(es, x) ==> Holds(r, x)
  {
    if !IsDup(es, c) {
      var fs := Reflagged(es, c);
      var x := Entry(c, FirstNewer(es, c) == |es|, false);
      var r := [x] + fs;
      assert Handle(es, capacity, reg, c).0 == r;
      assert r[0].chunk == c;
      forall y | Holds(es, y) ensures Holds(r, y) {
        var i :| 0 <= i < |es| && es[i].chunk == y;
        assert r[i + 1] == fs[i];
      }
    }
  }

  // ----- Takeovers that evict

  /** No chunk of a new source meets a store full of flagged entries. */
  ghost predicate NeverDesperate(es: seq<Entry>, capacity: int, reg: Registration, cs: seq<Chunk>) {
    |cs| > 0 ==>
      && NeverDesperate(es, capacity, reg, cs[..|cs| - 1])
      && !Desperate(AbsorbedAll(es, capacity, reg, cs[..|cs| - 1]), capacity, cs[|cs| - 1])
  }

  /** A chunk that is not handled in a full store of flagged entries leaves a value of its source that is
      at least as new: itself, or all that the store has are newer. */
  lemma HandledIsKept(es: seq<Entry>, capacity: int, reg: Registration, c: Chunk)
    requires Sound(es, capacity) && c.ts > 0 && capacity != 0 && !Desperate(es, capacity, c)
    ensures Has(Handle(es, capacity, reg, c).0, c.source, c.ts)
  {
    var fs, isNew := Reflagged(es, c), FirstNewer(es, c) == |es|;
    FlagsMove(es, c);
    PassKeeps(es, c);
    AbsentUnchanged(es, c);
    assert Desperate(fs, capacity, c) ==> Desperate(es, capacity, c);
    hide Reflagged, NewestFlagged;
    AddedIsKept(fs, capacity, reg, c, isNew);
  }

  lemma AddedIsKept(fs: seq<Entry>, capacity: int, reg: Registration, c: Chunk, isNew: bool)
    requires Positive(fs) && Unpinned(fs) && c.ts > 0 && capacity != 0 && (capacity > 0 ==> |fs| <= capacity)
    requires !Desperate(fs, capacity, c)
    ensures Has(Added(fs, capacity, reg, Entry(c, isNew, false)).0, c.source, c.ts)
  {
    hide Victim, Without, Has, Positive, Unpinned, Desperate;
    var x := Entry(c, isNew, false);
    var full := capacity > 0 && |fs| >= capacity;
    var v := if full then Victim(fs, c, reg) else -1;
    WithoutNothing(fs);
    SizeWithout(fs, v);
    HasAtHead(x, Without(fs, v));
    if full && v == -1 {
      NotDesperate(fs, capacity, c);
      NewerWhenRefused(fs, c, reg);
    }
  }

  lemma HasAtHead(x: Entry, es: seq<Entry>)
    ensures Has([x] + es, x.chunk.source, x.chunk.ts)
  {
    assert ([x] + es)[0] == x && x in [x] + es;
  }

  lemma SizeWithout(es: seq<Entry>, v: int)
    requires -1 <= v < |es|
    ensures |Without(es, v)| == if v == -1 then |es| else |es| - 1
  {}

  lemma NotDesperate(fs: seq<Entry>, capacity: int, c: Chunk)
    requires 0 < capacity <= |fs| && !Desperate(fs, capacity, c)
    ensures exists e :: e in fs && (!e.newest || e.chunk.source == c.source)
  {}

  lemma NewerWhenRefused(fs: seq<Entry>, c: Chunk, reg: Registration)
    requires Positive(fs) && Unpinned(fs) && c.ts > 0 && |fs| > 0 && Victim(fs, c, reg) == -1
    requires exists e :: e in fs && (!e.newest || e.chunk.source == c.source)
    ensures Has(fs, c.source, c.ts)
  {
    VictimIsLeastOfFirstTier(fs, c, reg);
    hide Victim;
    var e :| e in fs && (!e.newest || e.chunk.source == c.source);
    var i :| 0 <= i < |fs| && fs[i] == e;
    assert Member(fs, i, if e.chunk.source == c.source then Same else Unflagged, c.source, reg);
    assert Inhabited(fs, Same, c.source, reg);
    var k :| Member(fs, k, Same, c.source, reg);
    assert fs[k] in fs;
  }

  /** Also between full stores: if no step is desperate, the new deputy ends with a value at least as new
      for everything that it held or received. */
  lemma {:induction false} TakeoverKeepsNewest(es: seq<Entry>, capacity: int, reg: Registration, cs: seq<Chunk>)
    requires Sound(es, capacity) && capacity != 0 && NeverDesperate(es, capacity, reg, cs)
    requires forall c :: c in cs ==> c.ts > 0
    ensures var r := AbsorbedAll(es, capacity, reg, cs);
            && (forall e :: e in es ==> Has(r, e.chunk.source, e.chunk.ts))
            && (forall c :: c in cs ==> Has(r, c.source, c.ts))
  {
    hide *;
    if |cs| == 0 {
      HoldsItself(es);
      assert cs == [];
      AbsorbedNothing(es, capacity, reg);
    } else {
      var before, c := cs[..|cs| - 1], cs[|cs| - 1];
      assert c in cs && cs == before + [c];
      NeverDesperateBefore(es, capacity, reg, cs);
      TakeoverKeepsNewest(es, capacity, reg, before);
      TakeoverKeepsSound(es, capacity, reg, before);
      AbsorbedStep(es, capacity, reg, before, c);
      AbsorbedKeepsNewest(AbsorbedAll(es, capacity, reg, before), capacity, reg, c);
    }
  }

  lemma NeverDesperateBefore(es: seq<Entry>, capacity: int, reg: Registration, cs: seq<Chunk>)
    requires |cs| > 0 && NeverDesperate(es, capacity, reg, cs)
    ensures NeverDesperate(es, capacity, reg, cs[..|cs| - 1])
    ensures !Desperate(AbsorbedAll(es, capacity, reg, cs[..|cs| - 1]), capacity, cs[|cs| - 1])
  {
    hide AbsorbedAll, Desperate;
  }

  lemma HoldsItself(es: seq<Entry>)
    ensures forall e :: e in es ==> Has(es, e.chunk.source, e.chunk.ts)
  {}

  lemma AbsorbedKeepsNewest(es: seq<Entry>, capacity: int, reg: Registration, c: Chunk)
    requires Sound(es, capacity) && capacity != 0 && c.ts > 0 && !Desperate(es, capacity, c)
    ensures var r := Absorbed(es, capacity, reg, c);
            && Has(r, c.source, c.ts)
            && forall s, ts :: Has(es, s, ts) ==> Has(r, s, ts)
  {
    hide Handle, Desperate;
    if IsDup(es, c) {
      var i :| 0 <= i < |es| && es[i].chunk == c;
      assert es[i] in es;
    } else {
      Retention(es, capacity, reg, c);
      HandledIsKept(es, capacity, reg, c);
    }
  }

  // ----- How many sources it can cost

  ghost function SourcesOf(es: seq<Entry>): set<Source> { set e | e in es :: e.chunk.source }

  /** How many chunks of a new source meet a store full of flagged entries. */
  ghost function Desperations(es: seq<Entry>, capacity: int, reg: Registration, cs: seq<Chunk>): nat {
    if |cs| == 0 then 0
    else
      Desperations(es, capacity, reg, cs[..|cs| - 1]) +
      if Desperate(AbsorbedAll(es, capacity, reg, cs[..|cs| - 1]), capacity, cs[|cs| - 1]) then 1 else 0
  }

  /** A chunk in a full store of flagged entries costs one source: its own when it is refused, otherwise
      at most that of the entry it replaces. */
  lemma DesperateStep(es: seq<Entry>, capacity: int, reg: Registration, c: Chunk) returns (lost: Source)
    requires Sound(es, capacity) && Desperate(es, capacity, c)
    ensures SourcesOf(es) + {c.source} <= SourcesOf(Absorbed(es, capacity, reg, c)) + {lost}
  {
    hide *;
    var v := Victim(es, c, reg);
    AbsorbedWhenDesperate(es, capacity, reg, c);
    if v == -1 {
      lost := c.source;
      SourcesOfRefused(es, c.source);
    } else {
      lost := es[v].chunk.source;
      InsertedWhenDesperate(es, capacity, reg, c);
      SourcesOfReplaced(es, v, Entry(c, true, false));
    }
  }

  lemma AbsorbedWhenDesperate(es: seq<Entry>, capacity: int, reg: Registration, c: Chunk)
    requires Sound(es, capacity) && Desperate(es, capacity, c)
    ensures Absorbed(es, capacity, reg, c) == Handle(es, capacity, reg, c).0
    ensures -1 <= Victim(es, c, reg) < |es|
    ensures Victim(es, c, reg) == -1 ==> Handle(es, capacity, reg, c).0 == es
  {
    hide Handle, Victim, Sound;
    assert forall i :: 0 <= i < |es| ==> es[i] in es;
    HandledWhenDesperate(es, capacity, reg, c);
  }

  lemma SourcesOfRefused(es: seq<Entry>, s: Source)
    ensures SourcesOf(es) + {s} <= SourcesOf(es) + {s}
  {}

  lemma SourcesOfReplaced(es: seq<Entry>, v: nat, x: Entry)
    requires v < |es|
    ensures SourcesOf(es) + {x.chunk.source} <= SourcesOf([x] + Without(es, v)) + {es[v].chunk.source}
  {
    hide Without;
    var r := [x] + Without(es, v);
    InWithout(es, v);
    assert r[0] == x && x in r;
    forall e | e in es ensures e.chunk.source in SourcesOf(r) || e.chunk.source == es[v].chunk.source {
      assert e != es[v] ==> e in r;
    }
  }

  lemma InsertedWhenDesperate(es: seq<Entry>, capacity: int, reg: Registration, c: Chunk)
    requires Sound(es, capacity) && Desperate(es, capacity, c) && Victim(es, c, reg) >= 0
    ensures Handle(es, capacity, reg, c).0 == [Entry(c, true, false)] + Without(es, Victim(es, c, reg))
  {
    NoneOfSource(es, c);
    hide Victim, Reflagged, FirstNewer;
  }

  lemma OtherStep(es: seq<Entry>, capacity: int, reg: Registration, c: Chunk)
    requires Sound(es, capacity) && capacity != 0 && c.ts > 0 && !Desperate(es, capacity, c)
    ensures SourcesOf(es) + {c.source} <= SourcesOf(Absorbed(es, capacity, reg, c))
  {
    hide Absorbed, Sound, Desperate;
    AbsorbedKeepsNewest(es, capacity, reg, c);
    HoldsItself(es);
  }

  /** A takeover costs at most one source, of all that the new deputy held or received, for each chunk of a
      new source that meets a store full of flagged entries. */
  lemma {:induction false} SourcesLost(es: seq<Entry>, capacity: int, reg: Registration, cs: seq<Chunk>)
    returns (lost: set<Source>)
    requires Sound(es, capacity) && capacity != 0 && forall c :: c in cs ==> c.ts > 0
    ensures SourcesOf(es) + Sources(cs) <= SourcesOf(AbsorbedAll(es, capacity, reg, cs)) + lost
    ensures |lost| <= Desperations(es, capacity, reg, cs)
  {
    hide Absorbed, Sound, Desperate, SourcesOf;
    lost := {};
    if |cs| > 0 {
      var before, c := cs[..|cs| - 1], cs[|cs| - 1];
      assert c in cs && cs == before + [c];
      SourcesGrow(before, c);
      lost := SourcesLost(es, capacity, reg, before);
      TakeoverKeepsSound(es, capacity, reg, before);
      var s := AbsorbedAll(es, capacity, reg, before);
      if Desperate(s, capacity, c) {
        var x := DesperateStep(s, capacity, reg, c);
        lost := lost + {x};
      } else {
        OtherStep(s, capacity, reg, c);
      }
    }
  }

  /** The takeover as a whole, for an old deputy that answers, a network that never loses INT_RETRIES tries
      in a row and no desperate step: everything that the new deputy held and everything that the old one
      ever sends is in the new store afterwards, or something newer of its source. */
  method HandOver(next: Node, previous: Node, net: nat -> Outcome, noise: nat -> seq<Chunk>)
    returns (received: seq<Chunk>)
    requires previous != next && previous.relay != next.relay
    requires Serving(previous.state, previous.toldToSleep) && GetsThrough(net)
    requires Sound(next.relay.contents, next.relay.maxCacheEntries) && next.relay.maxCacheEntries != 0
    modifies next, next.relay`contents, previous, previous.relay`contents
    ensures received == Offered(previous.relay.contents, previous.relay.registration, 0)
    ensures Distinct(old(next.relay.contents)) ==> Distinct(next.relay.contents)
    ensures Positive(previous.relay.contents) &&
            NeverDesperate(old(next.relay.contents), next.relay.maxCacheEntries, next.relay.registration, received) ==>
      && Sound(next.relay.contents, next.relay.maxCacheEntries)
      && (forall e :: e in old(next.relay.contents) ==> Has(next.relay.contents, e.chunk.source, e.chunk.ts))
      && KeepsSent(previous.relay.contents, previous.relay.registration, next.relay.contents)
  {
    ghost var es := next.relay.contents;
    var sent;
    sent, received := next.Takeover(previous, net, noise);
    ghost var capacity, reg := next.relay.maxCacheEntries, next.relay.registration;
    if Distinct(es) {
      NothingStoredTwice(es, capacity, reg, received);
    }
    if Positive(previous.relay.contents) && NeverDesperate(es, capacity, reg, received) {
      OfferedArePositive(previous.relay.contents, previous.relay.registration);
      TakeoverKeepsSound(es, capacity, reg, received);
      TakeoverKeepsNewest(es, capacity, reg, received);
      SentAreKept(previous.relay.contents, previous.relay.registration, next.relay.contents);
    }
  }

  /** Of every entry that is ever sent the other store has a value at least as new. */
  ghost predicate KeepsSent(es: seq<Entry>, reg: Registration, r: seq<Entry>) {
    forall k :: 0 <= k < |es| && Sent(es, reg, k) ==> Has(r, es[k].chunk.source, es[k].chunk.ts)
  }

  lemma SentAreKept(es: seq<Entry>, reg: Registration, r: seq<Entry>)
    requires forall c :: c in Offered(es, reg, 0) ==> Has(r, c.source, c.ts)
    ensures KeepsSent(es, reg, r)
  {
    hide Sent, Offered, Has;
    forall k | 0 <= k < |es| && Sent(es, reg, k) ensures Has(r, es[k].chunk.source, es[k].chunk.ts) {
      SentIsOffered(es, reg, k);
      assert es[k].chunk in Offered(es, reg, 0);
    }
  }

  lemma OfferedArePositive(es: seq<Entry>, reg: Registration)
    requires Positive(es)
    ensures forall c :: c in Offered(es, reg, 0) ==> c.ts > 0
  {
    hide Offered;
    forall c | c in Offered(es, reg, 0) ensures c.ts > 0 {
      var p :| 0 <= p < |Offered(es, reg, 0)| && Offered(es, reg, 0)[p] == c;
      OfferedAt(es, reg, 0, p);
      assert es[Walk(es, reg, Limit(p), 0)] in es;
    }
  }

  /** A run caches only what has arrived. */
  lemma {:induction false} RunFrom(capacity: int, reg: Registration, xs: seq<Chunk>)
    ensures forall i :: 0 <= i < |Run(capacity, reg, xs)| ==> Run(capacity, reg, xs)[i].chunk in xs
  {
    if |xs| > 0 {
      var before, c := xs[..|xs| - 1], xs[|xs| - 1];
      RunFrom(capacity, reg, before);
      HandledFrom(Run(capacity, reg, before), capacity, reg, c);
    }
  }

  lemma HandledFrom(es: seq<Entry>, capacity: int, reg: Registration, c: Chunk)
    ensures var r := Handle(es, capacity, reg, c).0;
            forall i :: 0 <= i < |r| ==> r[i].chunk == c || Holds(es, r[i].chunk)
  {
    hide Victim, FirstNewer, Holds;
    var fs, r := Reflagged(es, c), Handle(es, capacity, reg, c).0;
    ReflaggedHolds(es, c);
    if capacity != 0 {
      var v := if capacity > 0 && |fs| >= capacity then Victim(fs, c, reg) else -1;
      var gs := Without(fs, v);
      InWithout(fs, v);
      forall i | 0 <= i < |r| && r[i].chunk != c ensures Holds(es, r[i].chunk) {
        assert r[i] in gs;
      }
    }
  }

  lemma ReflaggedHolds(es: seq<Entry>, c: Chunk)
    ensures forall e :: e in Reflagged(es, c) ==> Holds(es, e.chunk)
  {
    forall e | e in Reflagged(es, c) ensures Holds(es, e.chunk) {
      var i :| 0 <= i < |es| && Reflagged(es, c)[i] == e;
      assert es[i].chunk == e.chunk;
    }
  }

  // ----- The answer of the store, and chunks that it has already

  /** The answer says whether the chunk is in the store; then it is at the head, flagged if none of its source
      was newer. Everything else has been in the store before the pass. */
  lemma AnswerIff(es: seq<Entry>, capacity: int, reg: Registration, c: Chunk)
    requires !Holds(es, c)
    ensures var r := Handle(es, capacity, reg, c);
            && (r.1 <==> Holds(r.0, c))
            && (r.1 <==> r.0 != [] && r.0[0].chunk == c)
            && (r.1 ==> (r.0[0].newest <==> forall e :: e in es && e.chunk.source == c.source ==> e.chunk.ts <= c.ts))
            && forall e :: e in (if r.1 then r.0[1..] else r.0) ==> e in Reflagged(es, c)
  {
    var fs, isNew := Reflagged(es, c), FirstNewer(es, c) == |es|;
    assert isNew <==> forall e :: e in es && e.chunk.source == c.source ==> e.chunk.ts <= c.ts by {
      NewestIff(es, c);
    }
    ReflaggedHolds(es, c);
    hide Reflagged, FirstNewer, Victim;
    assert forall e :: e in fs ==> e.chunk != c;
    if capacity != 0 {
      AddedAnswer(fs, capacity, reg, Entry(c, isNew, false));
    } else {
      NoneHeld(fs, c);
    }
  }

  lemma NewestIff(es: seq<Entry>, c: Chunk)
    ensures FirstNewer(es, c) == |es| <==> forall e :: e in es && e.chunk.source == c.source ==> e.chunk.ts <= c.ts
  {
    var n := FirstNewer(es, c);
    if n < |es| {
      assert es[n] in es;
    }
  }

  lemma NoneHeld(es: seq<Entry>, c: Chunk)
    requires forall e :: e in es ==> e.chunk != c
    ensures !Holds(es, c)
  {
    assert forall i :: 0 <= i < |es| ==> es[i] in es;
  }

  lemma AddedAnswer(fs: seq<Entry>, capacity: int, reg: Registration, x: Entry)
    requires forall e :: e in fs ==> e.chunk != x.chunk
    ensures var r := Added(fs, capacity, reg, x);
            && (r.1 <==> Holds(r.0, x.chunk))
            && (r.1 <==> r.0 != [] && r.0[0] == x)
            && forall e :: e in (if r.1 then r.0[1..] else r.0) ==> e in fs
  {
    hide Victim;
    var v := if capacity > 0 && |fs| >= capacity then Victim(fs, x.chunk, reg) else -1;
    InWithout(fs, v);
    if Added(fs, capacity, reg, x).1 {
      assert Added(fs, capacity, reg, x).0[0] == x;
      assert Added(fs, capacity, reg, x).0[1..] == Without(fs, v);
    } else {
      NoneHeld(Without(fs, v), x.chunk);
    }
  }

  /** A chunk that the store has leaves it as it is. */
  lemma HeldIsLeftAlone(es: seq<Entry>, capacity: int, reg: Registration, c: Chunk)
    requires Holds(es, c)
    ensures Absorbed(es, capacity, reg, c) == es
  {
    hide Handle;
  }

  /** No chunk is in the store twice. */
  ghost predicate Distinct(es: seq<Entry>) { forall i, j :: 0 <= i < j < |es| ==> es[i].chunk != es[j].chunk }

  lemma AbsorbedIsDistinct(es: seq<Entry>, capacity: int, reg: Registration, c: Chunk)
    requires Distinct(es)
    ensures Distinct(Absorbed(es, capacity, reg, c))
  {
    if !IsDup(es, c) {
      var fs, isNew := Reflagged(es, c), FirstNewer(es, c) == |es|;
      assert Distinct(fs) && forall i :: 0 <= i < |fs| ==> fs[i].chunk != c;
      AddedIsDistinct(fs, capacity, reg, Entry(c, isNew, false));
      hide Reflagged, FirstNewer, Added, Distinct;
    }
  }

  lemma AddedIsDistinct(fs: seq<Entry>, capacity: int, reg: Registration, x: Entry)
    requires Distinct(fs) && forall i :: 0 <= i < |fs| ==> fs[i].chunk != x.chunk
    ensures Distinct(Added(fs, capacity, reg, x).0)
  {
    hide Victim;
    var v := if capacity > 0 && |fs| >= capacity then Victim(fs, x.chunk, reg) else -1;
    WithoutIsDistinct(fs, v, x.chunk);
  }

  lemma WithoutIsDistinct(fs: seq<Entry>, v: int, c: Chunk)
    requires -1 <= v < |fs| && Distinct(fs) && forall i :: 0 <= i < |fs| ==> fs[i].chunk != c
    ensures Distinct(Without(fs, v)) && forall i :: 0 <= i < |Without(fs, v)| ==> Without(fs, v)[i].chunk != c
  {
    var gs := Without(fs, v);
    assert forall i :: 0 <= i < |gs| ==> gs[i] == fs[if v == -1 || i < v then i else i + 1];
  }

  /** Nor is any after a takeover, or after whatever a deputy hears. */
  lemma {:induction false} NothingStoredTwice(es: seq<Entry>, capacity: int, reg: Registration, cs: seq<Chunk>)
    requires Distinct(es)
    ensures Distinct(AbsorbedAll(es, capacity, reg, cs))
  {
    if |cs| > 0 {
      NothingStoredTwice(es, capacity, reg, cs[..|cs| - 1]);
      AbsorbedIsDistinct(AbsorbedAll(es, capacity, reg, cs[..|cs| - 1]), capacity, reg, cs[|cs| - 1]);
      hide Distinct, Absorbed;
    }
  }
}
