/** The flags after a handover into an empty store. A store is handed over from its head, so a store in
    order reaches the new deputy newest first. */
module HandoverFlags {
  import opened Common
  import opened ContentStore
  import opened ContentStoreProperties
  import opened ContentStoreRuns
  import opened Handover
  import opened HandoverResult

  /** The chunks of each source come newest first. */
  ghost predicate Descending(cs: seq<Chunk>) {
    forall i, j :: 0 <= i < j < |cs| && cs[i].source == cs[j].source ==> cs[i].ts >= cs[j].ts
  }

  /** Three chunks of one source with different time stamps. */
  ghost predicate ThreeStamps(cs: seq<Chunk>) {
    exists a, b, c :: a in cs && b in cs && c in cs && a.source == b.source == c.source && a.ts > b.ts > c.ts
  }

  predicate SameStamp(a: Chunk, b: Chunk) { a.source == b.source && a.ts == b.ts }

  predicate Lower(a: Chunk, b: Chunk) { a.source == b.source && a.ts < b.ts }

  /** The first chunk of its source with its time stamp. */
  ghost predicate FirstOfStamp(cs: seq<Chunk>, p: int)
    requires 0 <= p < |cs|
  {
    forall q :: 0 <= q < p ==> !SameStamp(cs[q], cs[p])
  }

  /** Some chunk of its source is older. */
  ghost predicate Above(cs: seq<Chunk>, p: int)
    requires 0 <= p < |cs|
  {
    exists q :: 0 <= q < |cs| && Lower(cs[q], cs[p])
  }

  /** No chunk of its source has another time stamp. */
  ghost predicate OnlyStamp(cs: seq<Chunk>, p: int)
    requires 0 <= p < |cs|
  {
    forall q :: 0 <= q < |cs| && cs[q].source == cs[p].source ==> SameStamp(cs[q], cs[p])
  }

  ghost predicate Marked(cs: seq<Chunk>, p: int)
    requires 0 <= p < |cs|
  {
    FirstOfStamp(cs, p) && (OnlyStamp(cs, p) || Above(cs, p))
  }

  /** The chunks of each source are in the store oldest first. */
  ghost predicate Ascending(cs: seq<Chunk>) {
    forall p, q :: 0 <= p < q < |cs| && cs[p].source == cs[q].source ==> cs[p].ts <= cs[q].ts
  }

  ghost predicate NoneOlder(cs: seq<Chunk>, c: Chunk) {
    forall p :: 0 <= p < |cs| && cs[p].source == c.source ==> c.ts <= cs[p].ts
  }

  /** Which entries carry the newest flag after chunks that came newest first: the first one of every time
      stamp of the source but the lowest, or of the only one. */
  ghost predicate Shape(r: seq<Entry>) {
    && Ascending(Chunks(r))
    && forall p :: 0 <= p < |r| ==> (r[p].newest <==> Marked(Chunks(r), p))
  }

  // ----- One chunk more, at the head

  lemma FirstShifts(cs: seq<Chunk>, c: Chunk, p: nat)
    requires p < |cs|
    ensures FirstOfStamp([c] + cs, p + 1) <==> FirstOfStamp(cs, p) && !SameStamp(c, cs[p])
  {
    var n := [c] + cs;
    assert n[p + 1] == cs[p] && n[0] == c;
    if FirstOfStamp(n, p + 1) {
      forall q | 0 <= q < p ensures !SameStamp(cs[q], cs[p]) {
        assert n[q + 1] == cs[q];
      }
    }
  }

  lemma AboveShifts(cs: seq<Chunk>, c: Chunk, p: nat)
    requires p < |cs|
    ensures Above([c] + cs, p + 1) <==> Above(cs, p) || Lower(c, cs[p])
  {
    var n := [c] + cs;
    assert n[p + 1] == cs[p] && n[0] == c;
    if Above(cs, p) {
      var q :| 0 <= q < |cs| && Lower(cs[q], cs[p]);
      assert n[q + 1] == cs[q];
    }
  }

  lemma OnlyShifts(cs: seq<Chunk>, c: Chunk, p: nat)
    requires p < |cs|
    ensures OnlyStamp([c] + cs, p + 1) <==> OnlyStamp(cs, p) && (c.source == cs[p].source ==> SameStamp(c, cs[p]))
  {
    var n := [c] + cs;
    assert n[p + 1] == cs[p] && n[0] == c;
    if OnlyStamp(n, p + 1) {
      forall q | 0 <= q < |cs| && cs[q].source == cs[p].source ensures SameStamp(cs[q], cs[p]) {
        assert n[q + 1] == cs[q];
      }
    }
  }

  /** Its effect on the flags that the others should have: none on other sources; of its own source the
      first ones of the time stamps above it have them. */
  lemma MarkedShifts(cs: seq<Chunk>, c: Chunk, p: nat)
    requires p < |cs| && NoneOlder(cs, c)
    ensures Marked([c] + cs, p + 1) <==>
            if cs[p].source == c.source then FirstOfStamp(cs, p) && c.ts < cs[p].ts else Marked(cs, p)
  {
    hide FirstOfStamp, OnlyStamp, Above;
    FirstShifts(cs, c, p);
    AboveShifts(cs, c, p);
    OnlyShifts(cs, c, p);
  }

  lemma MarkedHead(cs: seq<Chunk>, c: Chunk)
    requires NoneOlder(cs, c)
    ensures Marked([c] + cs, 0) <==> forall q :: 0 <= q < |cs| && cs[q].source == c.source ==> cs[q].ts <= c.ts
  {
    var n := [c] + cs;
    assert n[0] == c && !Above(n, 0);
    if Marked(n, 0) {
      forall q | 0 <= q < |cs| && cs[q].source == c.source ensures cs[q].ts <= c.ts {
        assert n[q + 1] == cs[q];
      }
    }
  }

  lemma AscendingShifts(cs: seq<Chunk>, c: Chunk)
    requires Ascending(cs) && NoneOlder(cs, c)
    ensures Ascending([c] + cs)
  {}

  /** The pass over the store does the same. */
  lemma PassMarks(r: seq<Entry>, c: Chunk, p: nat)
    requires Shape(r) && NoneOlder(Chunks(r), c) && p < |r|
    ensures Reflagged(r, c)[p].newest <==>
            if r[p].chunk.source == c.source then FirstOfStamp(Chunks(r), p) && c.ts < r[p].chunk.ts
            else Marked(Chunks(r), p)
  {
    var f, cs := FirstNewer(r, c), Chunks(r);
    if r[p].chunk.source == c.source {
      if p > f && FirstOfStamp(cs, p) {
        assert Lower(cs[f], cs[p]);
      } else if p == f {
        assert FirstOfStamp(cs, p);
      }
    }
  }

  /** The store after one chunk more, with room for it. */
  function Next(r: seq<Entry>, c: Chunk): (s: seq<Entry>)
    ensures |s| == |r| + 1
  {
    [Entry(c, FirstNewer(r, c) == |r|, false)] + Reflagged(r, c)
  }

  lemma NextMarks(r: seq<Entry>, c: Chunk, p: nat)
    requires Shape(r) && NoneOlder(Chunks(r), c) && p <= |r|
    ensures Next(r, c)[p].newest <==> Marked([c] + Chunks(r), p)
  {
    hide Marked, Shape, Reflagged;
    if p == 0 {
      MarkedHead(Chunks(r), c);
      var f := FirstNewer(r, c);
      assert f < |r| ==> Chunks(r)[f] == r[f].chunk;
    } else {
      PassMarks(r, c, p - 1);
      MarkedShifts(Chunks(r), c, p - 1);
    }
  }

  lemma NextChunks(r: seq<Entry>, c: Chunk)
    ensures Chunks(Next(r, c)) == [c] + Chunks(r)
  {}

  lemma ShapeStep(r: seq<Entry>, c: Chunk)
    requires Shape(r) && NoneOlder(Chunks(r), c)
    ensures Shape(Next(r, c))
  {
    hide Marked, Ascending, NoneOlder, Next;
    NextChunks(r, c);
    AscendingShifts(Chunks(r), c);
    forall p: nat | p <= |r| ensures Next(r, c)[p].newest <==> Marked([c] + Chunks(r), p) {
      NextMarks(r, c, p);
    }
  }

  /** The store after chunks that came newest first, when there is room for all of them. */
  lemma {:induction false} DescendingShape(cs: seq<Chunk>, capacity: int, reg: Registration)
    requires Descending(cs) && (capacity < 0 || |cs| <= capacity)
    ensures var r := AbsorbedAll([], capacity, reg, cs);
            && Shape(r) && |r| <= |cs|
            && (forall c :: Holds(r, c) <==> c in cs)
  {
    hide Shape, Absorbed, Handle;
    if |cs| == 0 {
      EmptyShape();
    } else {
      var before, c := cs[..|cs| - 1], cs[|cs| - 1];
      assert cs == before + [c];
      DescendingShape(before, capacity, reg);
      var r := AbsorbedAll([], capacity, reg, before);
      forall p | 0 <= p < |r| && Chunks(r)[p].source == c.source ensures c.ts <= Chunks(r)[p].ts {
        assert Holds(r, r[p].chunk);
      }
      AbsorbedShape(r, capacity, reg, c);
    }
  }

  lemma EmptyShape()
    ensures Shape([])
  {}

  lemma AbsorbedShape(r: seq<Entry>, capacity: int, reg: Registration, c: Chunk)
    requires Shape(r) && NoneOlder(Chunks(r), c)
    requires capacity < 0 || |r| < capacity
    ensures var s := Absorbed(r, capacity, reg, c);
            && Shape(s) && |s| <= |r| + 1
            && (forall x :: Holds(s, x) <==> Holds(r, x) || x == c)
  {
    hide Shape;
    if !IsDup(r, c) {
      var s := Next(r, c);
      ShapeStep(r, c);
      AbsorbedHolds(r, capacity, reg, c);
      assert Absorbed(r, capacity, reg, c) == s;
      forall x | Holds(s, x) ensures Holds(r, x) || x == c {
        var i :| 0 <= i < |s| && s[i].chunk == x;
        assert i > 0 ==> r[i - 1].chunk == x;
      }
    }
  }

  /** Two flags of one source mean three time stamps, and the other way round. */
  lemma FlagsOfShape(r: seq<Entry>, cs: seq<Chunk>)
    requires Shape(r) && forall c :: Holds(r, c) <==> c in cs
    ensures FlagsUnique(r) <==> !ThreeStamps(cs)
  {
    hide *;
    TwoFlagsThreeStamps(r, cs);
    ThreeStampsTwoFlags(r, cs);
  }

  lemma TwoFlagsThreeStamps(r: seq<Entry>, cs: seq<Chunk>)
    requires Shape(r) && forall c :: Holds(r, c) <==> c in cs
    ensures !FlagsUnique(r) ==> ThreeStamps(cs)
  {
    if !FlagsUnique(r) {
      var i, j :| 0 <= i < j < |r| && r[i].newest && r[j].newest && r[i].chunk.source == r[j].chunk.source;
      var q := OlderThanBoth(Chunks(r), i, j);
      hide Shape, Marked, Ascending;
      assert Holds(r, r[q].chunk) && Holds(r, r[i].chunk) && Holds(r, r[j].chunk);
    }
  }

  lemma OlderThanBoth(cs: seq<Chunk>, i: nat, j: nat) returns (q: nat)
    requires Ascending(cs) && i < j < |cs| && Marked(cs, i) && Marked(cs, j) && cs[i].source == cs[j].source
    ensures q < |cs| && Lower(cs[q], cs[i]) && Lower(cs[i], cs[j])
  {
    assert !SameStamp(cs[i], cs[j]);
    q :| 0 <= q < |cs| && Lower(cs[q], cs[i]);
  }

  lemma ThreeStampsTwoFlags(r: seq<Entry>, cs: seq<Chunk>)
    requires Shape(r) && forall c :: Holds(r, c) <==> c in cs
    ensures ThreeStamps(cs) ==> !FlagsUnique(r)
  {
    hide Shape;
    if ThreeStamps(cs) {
      var a, b, c :| a in cs && b in cs && c in cs && a.source == b.source == c.source && a.ts > b.ts > c.ts;
      assert Holds(r, a) && Holds(r, b) && Holds(r, c);
      var k :| 0 <= k < |r| && r[k].chunk == c;
      var p := FirstWithStamp(r, a, k);
      var q := FirstWithStamp(r, b, k);
      assert r[p].newest && r[q].newest && p != q;
    }
  }

  lemma FirstWithStamp(r: seq<Entry>, a: Chunk, k: nat) returns (p: nat)
    requires Shape(r) && Holds(r, a) && k < |r| && Lower(r[k].chunk, a)
    ensures p < |r| && SameStamp(r[p].chunk, a) && r[p].newest
  {
    var ds := Chunks(r);
    var i :| 0 <= i < |r| && r[i].chunk == a;
    p := FirstBelow(ds, i);
    assert Lower(ds[k], ds[p]);
  }

  lemma FirstBelow(cs: seq<Chunk>, i: nat) returns (p: nat)
    requires i < |cs|
    ensures p <= i && SameStamp(cs[p], cs[i]) && FirstOfStamp(cs, p)
  {
    p := i;
    if !FirstOfStamp(cs, i) {
      var q :| 0 <= q < i && SameStamp(cs[q], cs[i]);
      p := FirstBelow(cs, q);
    }
  }

  lemma DescendingFlagsIff(cs: seq<Chunk>, capacity: int, reg: Registration)
    requires Descending(cs) && (capacity < 0 || |cs| <= capacity)
    ensures FlagsUnique(AbsorbedAll([], capacity, reg, cs)) <==> !ThreeStamps(cs)
  {
    hide Shape, AbsorbedAll, FlagsUnique, ThreeStamps, Holds;
    DescendingShape(cs, capacity, reg);
    FlagsOfShape(AbsorbedAll([], capacity, reg, cs), cs);
  }

  // ----- Stores in order

  /** A run in order leaves the entries of each source newest first. */
  lemma {:induction false} RunDescends(capacity: int, reg: Registration, xs: seq<Chunk>)
    requires InOrder(xs)
    ensures Descending(Chunks(Run(capacity, reg, xs)))
  {
    hide Handle;
    if |xs| > 0 {
      var before, c := xs[..|xs| - 1], xs[|xs| - 1];
      RunDescends(capacity, reg, before);
      RunFrom(capacity, reg, before);
      HandledDescends(Run(capacity, reg, before), capacity, reg, c);
    }
  }

  lemma DescendingWithout(cs: seq<Chunk>, v: nat)
    requires Descending(cs) && v < |cs|
    ensures Descending(cs[..v] + cs[v + 1..])
  {
    var ds := cs[..v] + cs[v + 1..];
    forall i, j | 0 <= i < j < |ds| && ds[i].source == ds[j].source ensures ds[i].ts >= ds[j].ts {
      var k, l := if i < v then i else i + 1, if j < v then j else j + 1;
      assert ds[i] == cs[k] && ds[j] == cs[l];
    }
  }

  lemma WithoutShifts(s: seq<Entry>, v: int)
    requires |s| > 0 && -1 <= v < |s| - 1
    ensures Without(s, 0) == s[1..]
    ensures [s[0]] + Without(s[1..], v) == if v == -1 then s else Without(s, v + 1)
  {
    if v >= 0 {
      assert s[1..][..v] == s[1..v + 1] && s[1..][v + 1..] == s[v + 2..];
      assert [s[0]] + s[1..v + 1] == s[..v + 1];
    }
  }

  lemma WithoutDescends(s: seq<Entry>, v: nat)
    requires Descending(Chunks(s)) && v < |s|
    ensures Descending(Chunks(Without(s, v)))
  {
    hide Descending;
    DescendingWithout(Chunks(s), v);
    assert Chunks(Without(s, v)) == Chunks(s)[..v] + Chunks(s)[v + 1..];
  }

  lemma AnyVictimDescends(x: Entry, fs: seq<Entry>, v: int)
    requires Descending(Chunks([x] + fs)) && -1 <= v < |fs|
    ensures Descending(Chunks(fs)) && Descending(Chunks(Without(fs, v))) && Descending(Chunks([x] + Without(fs, v)))
  {
    hide Descending, Without, Chunks;
    var s := [x] + fs;
    assert s[0] == x && s[1..] == fs;
    WithoutShifts(s, -1);
    WithoutShifts(s, v);
    WithoutDescends(s, 0);
    WithoutNothing(fs);
    if v >= 0 {
      WithoutDescends(fs, v);
      WithoutDescends(s, v + 1);
    }
  }

  /** A chunk that nothing of its source is newer than keeps the order. */
  lemma DescendingHead(es: seq<Entry>, c: Chunk)
    requires Descending(Chunks(es))
    requires forall p :: 0 <= p < |es| && es[p].chunk.source == c.source ==> es[p].chunk.ts <= c.ts
    ensures Descending(Chunks(Next(es, c)))
  {
    hide Next;
    NextChunks(es, c);
    var cs := Chunks(es);
    forall j | 0 <= j < |cs| && cs[j].source == c.source ensures cs[j].ts <= c.ts {
      assert cs[j] == es[j].chunk;
    }
  }

  lemma HandledDescends(es: seq<Entry>, capacity: int, reg: Registration, c: Chunk)
    requires Descending(Chunks(es))
    requires forall p :: 0 <= p < |es| && es[p].chunk.source == c.source ==> es[p].chunk.ts <= c.ts
    ensures Descending(Chunks(Handle(es, capacity, reg, c).0))
  {
    hide Descending, Victim, Without, FirstNewer, Reflagged, Chunks;
    var fs, x := Reflagged(es, c), Entry(c, FirstNewer(es, c) == |es|, false);
    var v := if capacity > 0 && |fs| >= capacity then Victim(fs, c, reg) else -1;
    DescendingHead(es, c);
    assert Next(es, c) == [x] + fs;
    AnyVictimDescends(x, fs, v);
    WithoutNothing(fs);
  }

  /** What a deputy offers keeps the order of its store. */
  lemma OfferedDescends(es: seq<Entry>, reg: Registration)
    requires Descending(Chunks(es))
    ensures Descending(Offered(es, reg, 0))
  {
    hide Offered, Walk, Count;
    var cs := Offered(es, reg, 0);
    forall i, j | 0 <= i < j < |cs| && cs[i].source == cs[j].source ensures cs[i].ts >= cs[j].ts {
      OfferedAt(es, reg, 0, i);
      OfferedAt(es, reg, 0, j);
      ContentBelow(es, reg, j, i);
      var k, l := Walk(es, reg, Limit(i), 0), Walk(es, reg, Limit(j), 0);
      assert Chunks(es)[k] == cs[i] && Chunks(es)[l] == cs[j];
    }
  }

  /** An old deputy whose chunks arrived in order hands over to an empty store with room for them: the new
      store has one flag for each source exactly when no source has three time stamps among the chunks
      handed over. */
  lemma HandoverFlagsIff(xs: seq<Chunk>, capacity: int, reg: Registration, newCapacity: int, newReg: Registration)
    requires InOrder(xs)
    requires newCapacity < 0 || |Offered(Run(capacity, reg, xs), reg, 0)| <= newCapacity
    ensures var cs := Offered(Run(capacity, reg, xs), reg, 0);
            FlagsUnique(AbsorbedAll([], newCapacity, newReg, cs)) <==> !ThreeStamps(cs)
  {
    hide Run, Offered, AbsorbedAll, FlagsUnique, ThreeStamps, Descending;
    RunDescends(capacity, reg, xs);
    OfferedDescends(Run(capacity, reg, xs), reg);
    DescendingFlagsIff(Offered(Run(capacity, reg, xs), reg, 0), newCapacity, newReg);
  }

  /** For example three chunks that arrived in order. */
  lemma HandoverDoublesFlags(a: Source)
    ensures var c3, c5, c9 := Chunk(a, 3, ""), Chunk(a, 5, ""), Chunk(a, 9, "");
            && Chunks(Run(3, None, [c3, c5, c9])) == [c9, c5, c3]
            && !FlagsUnique(AbsorbedAll([], 3, None, [c9, c5, c3]))
  {
    var c3, c5, c9 := Chunk(a, 3, ""), Chunk(a, 5, ""), Chunk(a, 9, "");
    hide Run, Handle, AbsorbedAll, FlagsUnique;
    RunOfNothing();
    RunStep(3, None, [], c3);
    RunStep(3, None, [c3], c5);
    RunStep(3, None, [c3, c5], c9);
    assert [] + [c3] == [c3] && [c3] + [c5] == [c3, c5] && [c3, c5] + [c9] == [c3, c5, c9];
    WithRoomAtHead([], c3);
    WithRoomAtHead(Run(3, None, [c3]), c5);
    WithRoomAtHead(Run(3, None, [c3, c5]), c9);
    var cs := [c9, c5, c3];
    assert c9 in cs && c5 in cs && c3 in cs;
    assert ThreeStamps(cs);
    DescendingFlagsIff(cs, 3, None);
  }

  lemma WithRoomAtHead(es: seq<Entry>, c: Chunk)
    requires |es| < 3
    ensures Chunks(Handle(es, 3, None, c).0) == [c] + Chunks(es)
  {
    hide FirstNewer;
    WithRoom(es, c);
  }

  // ----- Stores that are not empty

  /** Every entry before a flagged one of its source is older. */
  ghost predicate EarlierOlder(es: seq<Entry>) {
    forall i, j :: 0 <= i < j < |es| && es[i].chunk.source == es[j].chunk.source && es[j].newest ==>
      es[i].chunk.ts < es[j].chunk.ts
  }

  lemma PassKeepsEarlierOlder(es: seq<Entry>, c: Chunk)
    requires EarlierOlder(es)
    ensures EarlierOlder(Next(es, c))
  {
    var f, s := FirstNewer(es, c), Next(es, c);
    forall i, j | 0 <= i < j < |s| && s[i].chunk.source == s[j].chunk.source && s[j].newest
      ensures s[i].chunk.ts < s[j].chunk.ts
    {
      EarlierIsOlder(es, c, i, j);
    }
  }

  lemma EarlierIsOlder(es: seq<Entry>, c: Chunk, i: nat, j: nat)
    requires EarlierOlder(es) && i < j < |Next(es, c)| && Next(es, c)[j].newest
    requires Next(es, c)[i].chunk.source == Next(es, c)[j].chunk.source
    ensures Next(es, c)[i].chunk.ts < Next(es, c)[j].chunk.ts
  {
    var f, s := FirstNewer(es, c), Next(es, c);
    assert s[j].chunk == es[j - 1].chunk && (i > 0 ==> s[i].chunk == es[i - 1].chunk);
    if es[j - 1].chunk.source == c.source {
      assert j - 1 >= f;
      if j - 1 > f {
        assert es[f].chunk.ts < es[j - 1].chunk.ts;
      }
    }
  }

  lemma WithoutKeepsEarlierOlder(es: seq<Entry>, v: int)
    requires EarlierOlder(es) && -1 <= v < |es|
    ensures EarlierOlder(Without(es, v))
  {
    var gs := Without(es, v);
    forall i, j | 0 <= i < j < |gs| && gs[i].chunk.source == gs[j].chunk.source && gs[j].newest
      ensures gs[i].chunk.ts < gs[j].chunk.ts
    {
      var k, l := if v == -1 || i < v then i else i + 1, if v == -1 || j < v then j else j + 1;
      assert gs[i] == es[k] && gs[j] == es[l];
    }
  }

  /** It holds whatever arrives, in order or not. */
  lemma HandleKeepsEarlierOlder(es: seq<Entry>, capacity: int, reg: Registration, c: Chunk)
    requires EarlierOlder(es)
    ensures EarlierOlder(Handle(es, capacity, reg, c).0)
  {
    hide EarlierOlder, Reflagged, Added;
    var x := Entry(c, FirstNewer(es, c) == |es|, false);
    PassKeepsEarlierOlder(es, c);
    assert Next(es, c) == [x] + Reflagged(es, c);
    AnyVictimKeepsEarlierOlder(x, Reflagged(es, c), -1);
    WithoutNothing(Reflagged(es, c));
    AddedKeepsEarlierOlder(Reflagged(es, c), capacity, reg, x);
  }

  lemma AddedKeepsEarlierOlder(fs: seq<Entry>, capacity: int, reg: Registration, x: Entry)
    requires EarlierOlder([x] + fs)
    ensures EarlierOlder(Added(fs, capacity, reg, x).0)
  {
    hide EarlierOlder, Victim, Without;
    AnyVictimKeepsEarlierOlder(x, fs, if capacity > 0 && |fs| >= capacity then Victim(fs, x.chunk, reg) else -1);
    WithoutNothing(fs);
  }

  lemma AnyVictimKeepsEarlierOlder(x: Entry, fs: seq<Entry>, v: int)
    requires EarlierOlder([x] + fs) && -1 <= v < |fs|
    ensures EarlierOlder(Without(fs, v)) && EarlierOlder([x] + Without(fs, v))
  {
    hide EarlierOlder, Without;
    var s := [x] + fs;
    assert s[0] == x && s[1..] == fs;
    WithoutShifts(s, -1);
    WithoutShifts(s, v);
    WithoutKeepsEarlierOlder(s, 0);
    WithoutKeepsEarlierOlder(fs, v);
    WithoutKeepsEarlierOlder(s, v + 1);
  }

  lemma {:induction false} AnyRunIsEarlierOlder(capacity: int, reg: Registration, xs: seq<Chunk>)
    ensures EarlierOlder(Run(capacity, reg, xs))
  {
    if |xs| > 0 {
      AnyRunIsEarlierOlder(capacity, reg, xs[..|xs| - 1]);
      HandleKeepsEarlierOlder(Run(capacity, reg, xs[..|xs| - 1]), capacity, reg, xs[|xs| - 1]);
    }
  }

  /** With at most two time stamps of a source the first newer entry is the flagged one. */
  lemma TwoStampsKeepUnique(es: seq<Entry>, capacity: int, reg: Registration, c: Chunk)
    requires Sound(es, capacity) && FlagsUnique(es) && EarlierOlder(es) && c.ts > 0
    requires !ThreeStamps(Chunks(es) + [c])
    ensures FlagsUnique(Handle(es, capacity, reg, c).0)
  {
    FlagsStayUniqueIff(es, capacity, reg, c);
    hide Handle, Reflagged;
    var f := FirstNewer(es, c);
    if f < |es| {
      NewestIsFlagged(es, c, f);
    }
  }

  lemma NewestIsFlagged(es: seq<Entry>, c: Chunk, f: nat)
    requires NewestFlagged(es) && EarlierOlder(es) && f < |es| && f == FirstNewer(es, c)
    ensures !ThreeStamps(Chunks(es) + [c]) ==> es[f].newest
  {
    hide ThreeStamps, EarlierOlder, Chunks;
    assert es[f] in es && HasTop(es, es[f].chunk.source);
    var t :| Top(es, t, es[f].chunk.source);
    var j :| 0 <= j < |es| && es[j] == t;
    FlaggedIsFirst(es, c, f, j);
    NotThree(es, c, j, f);
  }

  lemma FlaggedIsFirst(es: seq<Entry>, c: Chunk, f: nat, j: nat)
    requires EarlierOlder(es) && f == FirstNewer(es, c) && f < |es| && j < |es|
    requires es[j].newest && es[j].chunk.source == c.source && es[f].chunk.ts <= es[j].chunk.ts
    ensures f == j || es[f].chunk.ts < es[j].chunk.ts
  {}

  lemma NotThree(es: seq<Entry>, c: Chunk, j: nat, f: nat)
    requires j < |es| && f < |es| && es[j].chunk.source == es[f].chunk.source == c.source
    ensures es[j].chunk.ts > es[f].chunk.ts > c.ts ==> ThreeStamps(Chunks(es) + [c])
  {
    var cs := Chunks(es) + [c];
    assert cs[j] in cs && cs[f] in cs && cs[|es|] in cs;
  }

  /** A full store of flagged entries, one for each source, and a chunk of another source have more sources
      than there is room. */
  lemma DesperateHasMoreSources(es: seq<Entry>, capacity: int, c: Chunk, all: set<Source>)
    requires Desperate(es, capacity, c) && FlagsUnique(es) && SourcesOf(es) + {c.source} <= all
    ensures |all| > capacity
  {
    forall e | e in es ensures e.chunk in Chunks(es) {
      var i :| 0 <= i < |es| && es[i] == e;
      assert Chunks(es)[i] == e.chunk;
    }
    AllFlaggedFit(es, Chunks(es));
    SourcesOfChunks(es);
    SubsetSize(SourcesOf(es), all - {c.source});
  }

  lemma SourcesOfChunks(es: seq<Entry>)
    ensures Sources(Chunks(es)) == SourcesOf(es)
  {
    forall i | 0 <= i < |es|
      ensures es[i].chunk.source in Sources(Chunks(es)) && es[i].chunk.source in SourcesOf(es)
    {
      assert Chunks(es)[i] in Chunks(es) && es[i] in es;
    }
  }

  /** The store and everything that arrives. */
  ghost predicate Among(r: seq<Entry>, es: seq<Entry>, cs: seq<Chunk>) {
    forall i :: 0 <= i < |r| ==> r[i].chunk in Chunks(es) + cs
  }

  lemma FewerStamps(r: seq<Entry>, es: seq<Entry>, cs: seq<Chunk>, c: Chunk)
    requires Among(r, es, cs) && c in cs && !ThreeStamps(Chunks(es) + cs)
    ensures !ThreeStamps(Chunks(r) + [c])
  {
    var ds := Chunks(r) + [c];
    forall x | x in ds ensures x in Chunks(es) + cs {
      var i :| 0 <= i < |ds| && ds[i] == x;
    }
  }

  lemma SourcesAmong(r: seq<Entry>, es: seq<Entry>, cs: seq<Chunk>, c: Chunk)
    requires Among(r, es, cs) && c in cs
    ensures SourcesOf(r) + {c.source} <= SourcesOf(es) + Sources(cs)
  {
    SourcesOfChunks(es);
    forall e | e in r ensures e.chunk.source in SourcesOf(es) + Sources(cs) {
      var i :| 0 <= i < |r| && r[i] == e;
      assert e.chunk in Chunks(es) || e.chunk in cs;
    }
  }

  lemma AbsorbedAmong(r: seq<Entry>, capacity: int, reg: Registration, c: Chunk, es: seq<Entry>, cs: seq<Chunk>)
    requires Among(r, es, cs) && c in cs
    ensures Among(Absorbed(r, capacity, reg, c), es, cs)
  {
    hide Handle;
    if !IsDup(r, c) {
      HandledFrom(r, capacity, reg, c);
    }
  }

  /** A condition on the two stores alone: if all that the new deputy holds or receives has at most two time
      stamps for each source and there is room for an entry of every source, no step of the takeover is
      desperate, and the new store keeps one flag for each source. Stores of runs meet the first line; those
      of runs in order also have one flag for each source. */
  lemma {:induction false} TwoStampsNeverDesperate(es: seq<Entry>, capacity: int, reg: Registration, cs: seq<Chunk>,
      n: nat)
    requires Sound(es, capacity) && EarlierOlder(es) && FlagsUnique(es) && forall c :: c in cs ==> c.ts > 0
    requires !ThreeStamps(Chunks(es) + cs) && n <= |cs|
    requires capacity < 0 || |SourcesOf(es) + Sources(cs)| <= capacity
    ensures NeverDesperate(es, capacity, reg, cs[..n])
    ensures var r := AbsorbedAll(es, capacity, reg, cs[..n]);
            Sound(r, capacity) && EarlierOlder(r) && FlagsUnique(r) && Among(r, es, cs)
  {
    hide Sound, EarlierOlder, FlagsUnique, ThreeStamps, SourcesOf, Absorbed, Handle, Desperate, Among;
    if n == 0 {
      AmongItself(es, cs);
    } else {
      var before, c := cs[..n - 1], cs[n - 1];
      var r := AbsorbedAll(es, capacity, reg, before);
      TwoStampsNeverDesperate(es, capacity, reg, cs, n - 1);
      assert cs[..n] == before + [c] && cs[..n][..n - 1] == before && c in cs;
      AbsorbedUnique(r, capacity, reg, c, es, cs);
      AbsorbedAmong(r, capacity, reg, c, es, cs);
    }
  }

  lemma AmongItself(es: seq<Entry>, cs: seq<Chunk>)
    ensures Among(es, es, cs)
  {
    forall i | 0 <= i < |es| ensures es[i].chunk in Chunks(es) + cs {
      assert (Chunks(es) + cs)[i] == es[i].chunk;
    }
  }

  lemma AbsorbedUnique(r: seq<Entry>, capacity: int, reg: Registration, c: Chunk, es: seq<Entry>, cs: seq<Chunk>)
    requires Sound(r, capacity) && EarlierOlder(r) && FlagsUnique(r) && Among(r, es, cs) && c in cs && c.ts > 0
    requires !ThreeStamps(Chunks(es) + cs) && (capacity < 0 || |SourcesOf(es) + Sources(cs)| <= capacity)
    ensures !Desperate(r, capacity, c)
    ensures var s := Absorbed(r, capacity, reg, c); Sound(s, capacity) && EarlierOlder(s) && FlagsUnique(s)
  {
    hide Sound, EarlierOlder, FlagsUnique, ThreeStamps, SourcesOf, Handle, Among;
    if Desperate(r, capacity, c) {
      SourcesAmong(r, es, cs, c);
      DesperateHasMoreSources(r, capacity, c, SourcesOf(es) + Sources(cs));
    }
    FewerStamps(r, es, cs, c);
    HandleKeepsSound(r, capacity, reg, c);
    HandleKeepsEarlierOlder(r, capacity, reg, c);
    TwoStampsKeepUnique(r, capacity, reg, c);
  }

  /** So a takeover loses nothing then: for a new deputy whose chunks arrived in order. */
  lemma TwoStampsTakeover(xs: seq<Chunk>, capacity: int, reg: Registration, cs: seq<Chunk>)
    requires InOrder(xs) && (forall x :: x in xs ==> x.ts > 0) && forall c :: c in cs ==> c.ts > 0
    requires capacity < 0 || (capacity > 0 && |Sources(xs) + Sources(cs)| <= capacity)
    ensures var es := Run(capacity, reg, xs);
            var r := AbsorbedAll(es, capacity, reg, cs);
            !ThreeStamps(Chunks(es) + cs) ==>
              && FlagsUnique(r)
              && (forall e :: e in es ==> Has(r, e.chunk.source, e.chunk.ts))
              && (forall c :: c in cs ==> Has(r, c.source, c.ts))
  {
    hide *;
    var es := Run(capacity, reg, xs);
    if !ThreeStamps(Chunks(es) + cs) {
      StoreInOrder(xs, capacity, reg, cs);
      TwoStampsNeverDesperate(es, capacity, reg, cs, |cs|);
      assert cs[..|cs|] == cs;
      TakeoverKeepsNewest(es, capacity, reg, cs);
    }
  }

  lemma StoreInOrder(xs: seq<Chunk>, capacity: int, reg: Registration, cs: seq<Chunk>)
    requires InOrder(xs) && forall x :: x in xs ==> x.ts > 0
    requires capacity < 0 || |Sources(xs) + Sources(cs)| <= capacity
    ensures var es := Run(capacity, reg, xs);
            && Sound(es, capacity) && EarlierOlder(es) && FlagsUnique(es)
            && (capacity < 0 || |SourcesOf(es) + Sources(cs)| <= capacity)
  {
    hide Run, FlagsUnique, Sound, EarlierOlder, Sources, Unpinned;
    var es := Run(capacity, reg, xs);
    SubsetSize(Sources(xs), Sources(xs) + Sources(cs));
    AnyRunIsSound(capacity, reg, xs);
    AnyRunIsEarlierOlder(capacity, reg, xs);
    InOrderRunLosesNothing(capacity, reg, xs);
    SourcesFrom(es, xs);
    SubsetSize(SourcesOf(es) + Sources(cs), Sources(xs) + Sources(cs));
  }

  lemma SourcesFrom(es: seq<Entry>, xs: seq<Chunk>)
    requires forall e :: e in es ==> e.chunk in xs
    ensures SourcesOf(es) <= Sources(xs)
  {}
}
