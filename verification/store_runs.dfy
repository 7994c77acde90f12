/** Whole runs of the content store: what is kept in any order of arrival, what an in-order run
    keeps besides, and how a run out of order can lose a source. */
module ContentStoreRuns {
  import opened Common
  import opened ContentStore
  import opened ContentStoreProperties

  /** The store after the chunks `xs`, from an empty one. */
  function Run(capacity: int, reg: Registration, xs: seq<Chunk>): seq<Entry> {
    if |xs| == 0 then []
    else Handle(Run(capacity, reg, xs[..|xs| - 1]), capacity, reg, xs[|xs| - 1]).0
  }

  lemma {:induction false} AnyRunIsSound(capacity: int, reg: Registration, xs: seq<Chunk>)
    requires forall x :: x in xs ==> x.ts > 0
    ensures Sound(Run(capacity, reg, xs), capacity)
  {
    if |xs| == 0 {
      NothingFlagged();
    } else {
      AnyRunIsSound(capacity, reg, xs[..|xs| - 1]);
      assert xs[|xs| - 1] in xs;
      HandleKeepsSound(Run(capacity, reg, xs[..|xs| - 1]), capacity, reg, xs[|xs| - 1]);
    }
  }

  // ----- When a source can be lost

  /** The source has an entry at least as new as `ts`. */
  ghost predicate Has(es: seq<Entry>, s: Source, ts: int) {
    exists e :: e in es && e.chunk.source == s && e.chunk.ts >= ts
  }

  /** The store is full of flagged entries, none of them of the source of the chunk. */
  ghost predicate Desperate(es: seq<Entry>, capacity: int, c: Chunk) {
    0 < capacity <= |es| && forall e :: e in es ==> e.newest && e.chunk.source != c.source
  }

  ghost predicate AllBut(es: seq<Entry>, r: seq<Entry>, gone: Entry) {
    forall e :: e in es && e != gone ==> Has(r, e.chunk.source, e.chunk.ts)
  }

  /** A cached source stays cached and its newest value never gets older, unless the store is full
      of flagged entries and the chunk is of a new source; even then at most one entry is lost. */
  lemma Retention(es: seq<Entry>, capacity: int, reg: Registration, c: Chunk)
    requires Sound(es, capacity) && c.ts > 0
    ensures var r := Handle(es, capacity, reg, c).0;
            && (!Desperate(es, capacity, c) ==> forall e :: e in es ==> Has(r, e.chunk.source, e.chunk.ts))
            && (Desperate(es, capacity, c) ==> exists gone :: gone in es && AllBut(es, r, gone))
  {
    var fs, isNew := Reflagged(es, c), FirstNewer(es, c) == |es|;
    FlagsMove(es, c);
    PassKeeps(es, c);
    if capacity == 0 {
      return;
    }
    var entry := Entry(c, isNew, false);
    var r := Added(fs, capacity, reg, entry).0;
    AddedRetains(fs, capacity, reg, c, isNew);
    AbsentUnchanged(es, c);
    assert Desperate(fs, capacity, c) ==> Desperate(es, capacity, c);
    hide Added, Reflagged, NewestFlagged, NewestFlaggedBut;
    forall e | e in es && !Desperate(es, capacity, c) ensures Has(r, e.chunk.source, e.chunk.ts) {
      var i :| 0 <= i < |es| && es[i] == e;
      assert fs[i] in fs;
    }
    if Desperate(es, capacity, c) {
      var gone :| gone in fs && AllBut(fs, r, gone);
    }
  }

  /** The pass changes nothing when the source has no entry. */
  lemma AbsentUnchanged(es: seq<Entry>, c: Chunk)
    ensures (forall e :: e in Reflagged(es, c) ==> e.chunk.source != c.source) ==> Reflagged(es, c) == es
    ensures (forall e :: e in es ==> e.chunk.source != c.source) ==> Reflagged(es, c) == es
  {
    var fs := Reflagged(es, c);
    forall i | 0 <= i < |es| ensures fs[i] in fs && es[i] in es {}
  }

  lemma AddedRetains(fs: seq<Entry>, capacity: int, reg: Registration, c: Chunk, isNew: bool)
    requires Positive(fs) && Unpinned(fs) && c.ts > 0 && NewestFlaggedBut(fs, c, isNew) && capacity != 0
    requires capacity > 0 ==> |fs| <= capacity
    ensures var r := Added(fs, capacity, reg, Entry(c, isNew, false)).0;
            && (!Desperate(fs, capacity, c) ==> forall e :: e in fs ==> Has(r, e.chunk.source, e.chunk.ts))
            && (Desperate(fs, capacity, c) ==> exists gone :: gone in fs && AllBut(fs, r, gone))
  {
    hide Victim, Without, NewestFlaggedBut, Desperate;
    var x := Entry(c, isNew, false);
    var r := Added(fs, capacity, reg, x).0;
    var full := capacity > 0 && |fs| >= capacity;
    var v := if full then Victim(fs, c, reg) else -1;
    InWithout(fs, v);
    assert forall e :: e in Without(fs, v) ==> e in r;
    assert forall e :: e in fs && (v == -1 || e != fs[v]) ==> Has(r, e.chunk.source, e.chunk.ts);
    NotDesperateWhenEmpty(fs, capacity, c);
    assert |fs| > 0 ==> fs[0] in fs && (v == -1 ==> AllBut(fs, r, fs[0]));
    if v >= 0 {
      InsertedAfter(fs, v, x);
      VictimIsCovered(fs, capacity, reg, c, isNew, r);
    }
  }

  lemma NotDesperateWhenEmpty(fs: seq<Entry>, capacity: int, c: Chunk)
    ensures |fs| == 0 ==> !Desperate(fs, capacity, c)
  {}

  lemma InsertedAfter(fs: seq<Entry>, v: nat, x: Entry)
    requires v < |fs|
    ensures |Without(fs, v)| == |fs| - 1 && x in [x] + Without(fs, v)
  {
    assert ([x] + Without(fs, v))[0] == x;
  }

  /** What is removed is older than something of its source that stays, unless the step is desperate. */
  lemma VictimIsCovered(fs: seq<Entry>, capacity: int, reg: Registration, c: Chunk, isNew: bool, r: seq<Entry>)
    requires Positive(fs) && Unpinned(fs) && c.ts > 0 && NewestFlaggedBut(fs, c, isNew) && 0 < capacity <= |fs|
    requires Victim(fs, c, reg) >= 0 && Entry(c, isNew, false) in r
    requires forall e :: e in fs && e != fs[Victim(fs, c, reg)] ==> e in r
    ensures var e := fs[Victim(fs, c, reg)];
            Desperate(fs, capacity, c) || Has(r, e.chunk.source, e.chunk.ts)
  {
    var v := Victim(fs, c, reg);
    VictimIsLeastOfFirstTier(fs, c, reg);
    hide Victim;
    var tier := FirstTier(fs, c.source, reg).value;
    VictimOfTier(fs, c, reg, tier, v, isNew);
    if tier == Unflagged {
      assert fs[v] in fs && HasTop(fs, fs[v].chunk.source);
      var t :| Top(fs, t, fs[v].chunk.source);
      assert t in r;
    }
  }

  // ----- One flag for each source

  ghost predicate FlagsUnique(es: seq<Entry>) {
    forall i, j ::
      0 <= i < |es| && 0 <= j < |es| && es[i].newest && es[j].newest && es[i].chunk.source == es[j].chunk.source
      ==> i == j
  }

  /** A chunk leaves one flag for each source exactly when no entry of its source is newer, or the
      first newer one in the list is the flagged one. */
  lemma FlagsStayUniqueIff(es: seq<Entry>, capacity: int, reg: Registration, c: Chunk)
    requires Sound(es, capacity) && FlagsUnique(es) && c.ts > 0
    ensures FlagsUnique(Handle(es, capacity, reg, c).0)
       <==> FirstNewer(es, c) == |es| || es[FirstNewer(es, c)].newest
  {
    var n, fs := FirstNewer(es, c), Reflagged(es, c);
    PassKeeps(es, c);
    if n < |es| && !es[n].newest {
      assert es[n] in es && HasTop(es, c.source);
      var t :| Top(es, t, c.source);
      var j :| 0 <= j < |es| && es[j] == t;
      assert j > n && fs[n].newest && fs[j].newest;
      TwoFlagsStay(fs, capacity, reg, Entry(c, false, false), n, j);
    } else {
      PassKeepsUnique(es, c);
      if capacity != 0 {
        AddedKeepsUnique(fs, capacity, reg, c, n == |es|);
      }
    }
  }

  lemma PassKeepsUnique(es: seq<Entry>, c: Chunk)
    requires FlagsUnique(es)
    requires FirstNewer(es, c) == |es| || es[FirstNewer(es, c)].newest
    ensures var fs := Reflagged(es, c);
            && FlagsUnique(fs)
            && (FirstNewer(es, c) == |es| ==>
                 forall i :: 0 <= i < |fs| && fs[i].chunk.source == c.source ==> !fs[i].newest)
  {
    var n, fs := FirstNewer(es, c), Reflagged(es, c);
    forall i, j | 0 <= i < |es| && 0 <= j < |es| && fs[i].newest && fs[j].newest
                  && fs[i].chunk.source == fs[j].chunk.source
      ensures i == j
    {
      assert es[i].newest && es[j].newest;
    }
  }

  lemma AddedKeepsUnique(fs: seq<Entry>, capacity: int, reg: Registration, c: Chunk, isNew: bool)
    requires FlagsUnique(fs) && capacity != 0
    requires isNew ==> forall i :: 0 <= i < |fs| && fs[i].chunk.source == c.source ==> !fs[i].newest
    ensures FlagsUnique(Added(fs, capacity, reg, Entry(c, isNew, false)).0)
  {
    hide Victim, Without, FlagsUnique;
    var v := if capacity > 0 && |fs| >= capacity then Victim(fs, c, reg) else -1;
    WithoutIsUnique(fs, v);
    HeadIsUnique(Entry(c, isNew, false), fs, v);
    WithoutNothing(fs);
  }

  lemma WithoutNothing(fs: seq<Entry>)
    ensures Without(fs, -1) == fs
  {}

  /** Where an entry is after a removal. */
  lemma KeptAt(fs: seq<Entry>, v: int, n: nat)
    requires -1 <= v < |fs| && n < |fs| && n != v
    ensures var k := if v == -1 || n < v then n else n - 1;
            k < |Without(fs, v)| && Without(fs, v)[k] == fs[n]
  {}

  /** Where an entry was before. */
  lemma WasAt(fs: seq<Entry>, v: int, k: nat)
    requires -1 <= v < |fs| && k < |Without(fs, v)|
    ensures var n := if v == -1 || k < v then k else k + 1;
            n < |fs| && Without(fs, v)[k] == fs[n]
  {}

  lemma WithoutIsUnique(fs: seq<Entry>, v: int)
    requires FlagsUnique(fs) && -1 <= v < |fs|
    ensures FlagsUnique(Without(fs, v))
  {
    hide Without;
    var gs := Without(fs, v);
    forall i, j | 0 <= i < |gs| && 0 <= j < |gs| && gs[i].newest && gs[j].newest
                  && gs[i].chunk.source == gs[j].chunk.source
      ensures i == j
    {
      WasAt(fs, v, i);
      WasAt(fs, v, j);
    }
  }

  lemma HeadIsUnique(x: Entry, fs: seq<Entry>, v: int)
    requires FlagsUnique(fs) && -1 <= v < |fs|
    requires x.newest ==> forall i :: 0 <= i < |fs| && fs[i].chunk.source == x.chunk.source ==> !fs[i].newest
    ensures FlagsUnique([x] + Without(fs, v))
  {
    hide Without, FlagsUnique;
    WithoutIsUnique(fs, v);
    var gs := Without(fs, v);
    forall k | 0 <= k < |gs| && gs[k].chunk.source == x.chunk.source ensures x.newest ==> !gs[k].newest {
      WasAt(fs, v, k);
    }
    BehindIsUnique(x, gs);
  }

  lemma BehindIsUnique(x: Entry, gs: seq<Entry>)
    requires FlagsUnique(gs)
    requires x.newest ==> forall k :: 0 <= k < |gs| && gs[k].chunk.source == x.chunk.source ==> !gs[k].newest
    ensures FlagsUnique([x] + gs)
  {}

  lemma TwoFlagged(r: seq<Entry>, k: nat, l: nat)
    requires k < l < |r| && r[k].newest && r[l].newest && r[k].chunk.source == r[l].chunk.source
    ensures !FlagsUnique(r)
  {}

  /** Two flagged entries that are newer than the chunk are both kept. */
  lemma TwoFlagsStay(fs: seq<Entry>, capacity: int, reg: Registration, x: Entry, n: nat, j: nat)
    requires Positive(fs) && Unpinned(fs) && x.chunk.ts > 0 && n < j < |fs|
    requires fs[n].newest && fs[j].newest && fs[n].chunk.source == fs[j].chunk.source == x.chunk.source
    requires fs[n].chunk.ts > x.chunk.ts && fs[j].chunk.ts > x.chunk.ts
    ensures !FlagsUnique(fs)
    ensures capacity != 0 ==> !FlagsUnique(Added(fs, capacity, reg, x).0)
  {
    hide Victim, Positive, Unpinned, Without, FlagsUnique;
    TwoFlagged(fs, n, j);
    var v := if capacity > 0 && |fs| >= capacity then Victim(fs, x.chunk, reg) else -1;
    VictimIsOlder(fs, x.chunk, reg, n);
    TwoFlagsKept(fs, v, x, n, j);
    WithoutNothing(fs);
  }

  lemma TwoFlagsKept(fs: seq<Entry>, v: int, x: Entry, n: nat, j: nat)
    requires -1 <= v < |fs| && n < j < |fs| && v != n && v != j
    requires fs[n].newest && fs[j].newest && fs[n].chunk.source == fs[j].chunk.source
    ensures !FlagsUnique(Without(fs, v)) && !FlagsUnique([x] + Without(fs, v))
  {
    KeptAt(fs, v, n);
    KeptAt(fs, v, j);
    hide Without, FlagsUnique;
    var k := if v == -1 || n < v then n else n - 1;
    var l := if v == -1 || j < v then j else j - 1;
    TwoFlagged(Without(fs, v), k, l);
    TwoFlaggedBehind(x, Without(fs, v), k, l);
  }

  lemma TwoFlaggedBehind(x: Entry, gs: seq<Entry>, k: nat, l: nat)
    requires k < l < |gs| && gs[k].newest && gs[l].newest && gs[k].chunk.source == gs[l].chunk.source
    ensures !FlagsUnique([x] + gs)
  {
    hide FlagsUnique;
    TwoFlagged([x] + gs, k + 1, l + 1);
  }

  lemma VictimIsOlder(fs: seq<Entry>, c: Chunk, reg: Registration, n: nat)
    requires Positive(fs) && Unpinned(fs) && c.ts > 0 && n < |fs| && fs[n].chunk.source == c.source
    ensures var v := Victim(fs, c, reg); v >= 0 ==> fs[v].chunk.ts <= c.ts
  {
    VictimIsLeastOfFirstTier(fs, c, reg);
    hide Victim;
    assert fs[n] in fs && Member(fs, n, Same, c.source, reg);
  }

  // ----- Runs in order

  /** Chunks of one source arrive with time stamps that do not decrease. */
  ghost predicate InOrder(xs: seq<Chunk>) {
    forall i, j :: 0 <= i < j < |xs| && xs[i].source == xs[j].source ==> xs[i].ts <= xs[j].ts
  }

  function Sources(xs: seq<Chunk>): set<Source> { set x | x in xs :: x.source }

  /** The last chunk of a source. */
  function Latest(xs: seq<Chunk>, s: Source): (r: Option<Chunk>)
    ensures r.Some? ==> r.value in xs && r.value.source == s
    ensures r.None? ==> forall x :: x in xs ==> x.source != s
  {
    if |xs| == 0 then None
    else if xs[|xs| - 1].source == s then Some(xs[|xs| - 1])
    else
      var r := Latest(xs[..|xs| - 1], s);
      assert xs == xs[..|xs| - 1] + [xs[|xs| - 1]];
      r
  }

  /** The one flagged entry of every source that has arrived is its last chunk. */
  ghost predicate HoldsLatest(es: seq<Entry>, xs: seq<Chunk>) {
    && Unpinned(es) && FlagsUnique(es)
    && (forall e :: e in es ==> e.chunk in xs)
    && (forall s :: s in Sources(xs) ==> Entry(Latest(xs, s).value, true, false) in es)
  }

  /** Nothing is lost in order: as long as the store has room for one entry of each source, every
      chunk is accepted and the store holds the last chunk of every source, the only one flagged. */
  lemma {:induction false} InOrderRunLosesNothing(capacity: int, reg: Registration, xs: seq<Chunk>)
    requires InOrder(xs) && forall x :: x in xs ==> x.ts > 0
    requires capacity < 0 || |Sources(xs)| <= capacity
    ensures HoldsLatest(Run(capacity, reg, xs), xs)
    ensures capacity >= 0 ==> |Run(capacity, reg, xs)| <= capacity
    ensures |xs| > 0 ==> Handle(Run(capacity, reg, xs[..|xs| - 1]), capacity, reg, xs[|xs| - 1]).1
  {
    if |xs| > 0 {
      var before, c := xs[..|xs| - 1], xs[|xs| - 1];
      assert xs == before + [c];
      InOrderPrefix(before, c);
      SourcesGrow(before, c);
      hide Run, HoldsLatest, InOrder, Sources;
      InOrderRunLosesNothing(capacity, reg, before);
      OneMoreInOrder(capacity, reg, before, c);
    } else {
      assert Sources(xs) == {};
    }
  }

  lemma OneMoreInOrder(capacity: int, reg: Registration, xs: seq<Chunk>, c: Chunk)
    requires InOrder(xs + [c]) && forall x :: x in xs + [c] ==> x.ts > 0
    requires HoldsLatest(Run(capacity, reg, xs), xs)
    requires capacity < 0 || (|Sources(xs + [c])| <= capacity && |Run(capacity, reg, xs)| <= capacity)
    ensures var r := Run(capacity, reg, xs + [c]);
            HoldsLatest(r, xs + [c]) && (capacity >= 0 ==> |r| <= capacity)
    ensures Handle(Run(capacity, reg, xs), capacity, reg, c).1
  {
    hide HoldsLatest, InOrder, Sources, Handle;
    RunStep(capacity, reg, xs, c);
    hide Run;
    InOrderStep(Run(capacity, reg, xs), capacity, reg, xs, c);
  }

  lemma InOrderPrefix(xs: seq<Chunk>, c: Chunk)
    requires InOrder(xs + [c])
    ensures InOrder(xs)
  {
    var ys := xs + [c];
    assert forall i :: 0 <= i < |xs| ==> ys[i] == xs[i];
  }

  lemma SourcesGrow(xs: seq<Chunk>, c: Chunk)
    ensures Sources(xs + [c]) == Sources(xs) + {c.source}
    ensures |Sources(xs)| <= |Sources(xs + [c])|
    ensures c.source !in Sources(xs) ==> |Sources(xs + [c])| == |Sources(xs)| + 1
  {
    assert forall x :: x in xs + [c] <==> x in xs || x == c;
    assert Sources(xs + [c]) == Sources(xs) + {c.source};
    if c.source in Sources(xs) {
      assert Sources(xs) + {c.source} == Sources(xs);
    }
  }

  lemma InOrderStep(es: seq<Entry>, capacity: int, reg: Registration, xs: seq<Chunk>, c: Chunk)
    requires HoldsLatest(es, xs) && InOrder(xs + [c]) && forall x :: x in xs + [c] ==> x.ts > 0
    requires capacity < 0 || (|Sources(xs + [c])| <= capacity && |es| <= capacity)
    ensures var (r, ok) := Handle(es, capacity, reg, c);
            ok && HoldsLatest(r, xs + [c]) && (capacity >= 0 ==> |r| <= capacity)
  {
    var fs := Reflagged(es, c);
    PassInOrder(es, xs, c);
    PassKeepsUnique(es, c);
    RoomForOne(xs, c);
    if capacity > 0 && |es| == capacity {
      VictimInOrder(es, capacity, reg, xs, c);
    }
    hide Reflagged, FlagsUnique, Victim, InOrder;
    InOrderAdded(fs, capacity, reg, xs, c);
  }

  lemma RoomForOne(xs: seq<Chunk>, c: Chunk)
    ensures |Sources(xs + [c])| > 0
  {
    SourcesGrow(xs, c);
    assert c.source in Sources(xs + [c]);
  }

  lemma InOrderAdded(fs: seq<Entry>, capacity: int, reg: Registration, xs: seq<Chunk>, c: Chunk)
    requires Unpinned(fs) && FlagsUnique(fs) && capacity != 0 && (capacity > 0 ==> |fs| <= capacity)
    requires forall e :: e in fs ==> e.chunk in xs
    requires forall i :: 0 <= i < |fs| && fs[i].chunk.source == c.source ==> !fs[i].newest
    requires forall s :: s in Sources(xs) && s != c.source ==> Entry(Latest(xs, s).value, true, false) in fs
    requires capacity > 0 && |fs| == capacity ==>
      var v := Victim(fs, c, reg); v >= 0 && (fs[v].chunk.source == c.source || !fs[v].newest)
    ensures var (r, ok) := Added(fs, capacity, reg, Entry(c, true, false));
            ok && HoldsLatest(r, xs + [c]) && (capacity >= 0 ==> |r| <= capacity)
  {
    hide Victim, Unpinned, FlagsUnique;
    AddedKeepsUnique(fs, capacity, reg, c, true);
    var v := if capacity > 0 && |fs| >= capacity then Victim(fs, c, reg) else -1;
    LatestKept(fs, v, xs, c);
  }

  /** In order no entry is newer, so the whole source is unflagged and the other sources are as before. */
  lemma PassInOrder(es: seq<Entry>, xs: seq<Chunk>, c: Chunk)
    requires HoldsLatest(es, xs) && InOrder(xs + [c])
    ensures FirstNewer(es, c) == |es|
    ensures var fs := Reflagged(es, c);
            && Unpinned(fs)
            && (forall e :: e in fs ==> e.chunk in xs && (e.chunk.source == c.source ==> e.chunk.ts <= c.ts))
            && (forall e :: e in es && e.chunk.source != c.source ==> e in fs)
  {
    forall x | x in xs && x.source == c.source ensures x.ts <= c.ts {
      var i :| 0 <= i < |xs| && xs[i] == x;
      assert (xs + [c])[i] == x && (xs + [c])[|xs|] == c;
    }
    var n, fs := FirstNewer(es, c), Reflagged(es, c);
    forall i | 0 <= i < |es| && es[i].chunk.source == c.source ensures es[i].chunk.ts <= c.ts {
      assert es[i] in es;
    }
    forall i | 0 <= i < |es|
      ensures es[i] in es && fs[i] in fs
      ensures fs[i] == if es[i].chunk.source == c.source then Entry(es[i].chunk, false, false) else es[i]
    {}
    forall e | e in fs ensures !e.pinned && e.chunk in xs {
      var i :| 0 <= i < |fs| && fs[i] == e;
    }
    forall e | e in es && e.chunk.source != c.source ensures e in fs {
      var i :| 0 <= i < |es| && es[i] == e;
    }
  }

  lemma {:induction false} DistinctFit<T>(s: seq<T>, t: set<T>)
    requires forall i, j :: 0 <= i < j < |s| ==> s[i] != s[j]
    requires forall x :: x in s ==> x in t
    ensures |s| <= |t|
  {
    if |s| > 0 {
      var last := s[|s| - 1];
      assert last in s;
      DistinctFit(s[..|s| - 1], t - {last});
    }
  }

  /** A store of flagged entries only has no more entries than sources. */
  lemma AllFlaggedFit(es: seq<Entry>, xs: seq<Chunk>)
    requires FlagsUnique(es) && forall e :: e in es ==> e.newest && e.chunk in xs
    ensures |es| <= |Sources(xs)|
  {
    var sources := seq(|es|, i requires 0 <= i < |es| => es[i].chunk.source);
    forall i, j | 0 <= i < j < |es| ensures sources[i] != sources[j] {
      assert es[i] in es && es[j] in es;
    }
    forall x | x in sources ensures x in Sources(xs) {
      var i :| 0 <= i < |sources| && sources[i] == x;
      assert es[i] in es;
    }
    DistinctFit(sources, Sources(xs));
  }

  /** At capacity an older entry of the source goes, or an unflagged one, which is there because the
      sources are fewer than the entries. */
  lemma VictimInOrder(es: seq<Entry>, capacity: int, reg: Registration, xs: seq<Chunk>, c: Chunk)
    requires HoldsLatest(es, xs) && InOrder(xs + [c]) && forall x :: x in xs + [c] ==> x.ts > 0
    requires capacity > 0 && |es| == capacity && |Sources(xs + [c])| <= capacity
    ensures var fs := Reflagged(es, c);
            var v := Victim(fs, c, reg);
            v >= 0 && (fs[v].chunk.source == c.source || !fs[v].newest)
  {
    var fs := Reflagged(es, c);
    PassInOrder(es, xs, c);
    assert c in xs + [c] && Positive(fs);
    if exists e :: e in fs && e.chunk.source == c.source {
      VictimOfSameSource(fs, c, reg);
    } else {
      VictimIsLeastOfFirstTier(fs, c, reg);
      hide Victim, Reflagged, FirstNewer;
      AbsentUnchanged(es, c);
      SourcesGrow(xs, c);
      assert c.source !in Sources(xs);
      UnflaggedExists(fs, xs, c, reg);
    }
  }

  lemma VictimOfSameSource(fs: seq<Entry>, c: Chunk, reg: Registration)
    requires Positive(fs) && Unpinned(fs) && c.ts > 0
    requires exists e :: e in fs && e.chunk.source == c.source
    requires forall e :: e in fs && e.chunk.source == c.source ==> e.chunk.ts <= c.ts
    ensures var v := Victim(fs, c, reg);
            v >= 0 && fs[v].chunk.source == c.source
  {
    VictimIsLeastOfFirstTier(fs, c, reg);
    hide Victim;
    var i :| 0 <= i < |fs| && fs[i].chunk.source == c.source;
    assert fs[i] in fs && Member(fs, i, Same, c.source, reg);
  }

  lemma UnflaggedExists(fs: seq<Entry>, xs: seq<Chunk>, c: Chunk, reg: Registration)
    requires HoldsLatest(fs, xs) && |fs| > |Sources(xs)| && forall e :: e in fs ==> e.chunk.source != c.source
    ensures FirstTier(fs, c.source, reg) == Some(Unflagged)
  {
    if forall e :: e in fs ==> e.newest {
      AllFlaggedFit(fs, xs);
    }
    var e :| e in fs && !e.newest;
    var i :| 0 <= i < |fs| && fs[i] == e;
    assert Member(fs, i, Unflagged, c.source, reg);
    forall k ensures !Member(fs, k, Same, c.source, reg) {
      assert 0 <= k < |fs| ==> fs[k] in fs;
    }
  }

  lemma LatestKept(fs: seq<Entry>, v: int, xs: seq<Chunk>, c: Chunk)
    requires Unpinned(fs) && -1 <= v < |fs| && forall e :: e in fs ==> e.chunk in xs
    requires v >= 0 ==> fs[v].chunk.source == c.source || !fs[v].newest
    requires forall s :: s in Sources(xs) && s != c.source ==> Entry(Latest(xs, s).value, true, false) in fs
    ensures var r := [Entry(c, true, false)] + Without(fs, v);
            && Unpinned(r) && (forall e :: e in r ==> e.chunk in xs + [c])
            && forall s :: s in Sources(xs + [c]) ==> Entry(Latest(xs + [c], s).value, true, false) in r
  {
    InWithout(fs, v);
    SourcesGrow(xs, c);
    var x, gs, ys := Entry(c, true, false), Without(fs, v), xs + [c];
    var r := [x] + gs;
    assert forall e :: e in r <==> e == x || e in gs;
    assert ys[..|ys| - 1] == xs;
    forall s | s in Sources(ys) ensures Entry(Latest(ys, s).value, true, false) in r {
      if s != c.source {
        assert Latest(ys, s) == Latest(xs, s);
      }
    }
  }

  // ----- Losing a source

  ghost predicate SourceLost(es: seq<Entry>, r: seq<Entry>) {
    exists e :: e in es && forall x :: x in r ==> x.chunk.source != e.chunk.source
  }

  /** The chunk gets a place: some entry is of another kind than the registered one, or not newer. */
  ghost predicate Admitted(es: seq<Entry>, reg: Registration, c: Chunk) {
    exists e :: e in es && ((reg.Some? && KindChar(e.chunk.source) != reg.value) || e.chunk.ts <= c.ts)
  }

  /** An entry among those that a full store of flagged entries gives up for a new source: one of another
      kind than the registered one, or any if there is none of another kind. */
  ghost predicate Contender(es: seq<Entry>, reg: Registration, i: int) {
    0 <= i < |es| &&
    ((exists j :: Foreign(es, reg, j)) ==> Foreign(es, reg, i))
  }

  ghost predicate Foreign(es: seq<Entry>, reg: Registration, i: int) {
    0 <= i < |es| && reg.Some? && KindChar(es[i].chunk.source) != reg.value
  }

  /** The first of the oldest of those entries. */
  ghost predicate Expendable(es: seq<Entry>, reg: Registration, v: int) {
    Contender(es, reg, v) &&
    forall i :: Contender(es, reg, i) ==>
      es[v].chunk.ts <= es[i].chunk.ts && (i < v ==> es[v].chunk.ts < es[i].chunk.ts)
  }

  /** No other entry is of the same source. */
  ghost predicate Alone(es: seq<Entry>, v: int)
    requires 0 <= v < |es|
  {
    forall i :: 0 <= i < |es| && es[i].chunk.source == es[v].chunk.source ==> i == v
  }

  /** After any arrivals, in order or not: a chunk makes the store lose a source exactly when the store is
      full of flagged entries of other sources, the chunk is admitted all the same, and the first oldest
      entry that it can replace is the only one of its source. */
  lemma SourceLostIff(es: seq<Entry>, capacity: int, reg: Registration, c: Chunk)
    requires Sound(es, capacity) && c.ts > 0
    ensures SourceLost(es, Handle(es, capacity, reg, c).0)
       <==> && Desperate(es, capacity, c) && Admitted(es, reg, c)
            && exists v :: Expendable(es, reg, v) && Alone(es, v)
  {
    hide Handle, Victim, Expendable, Sound;
    var r := Handle(es, capacity, reg, c).0;
    Retention(es, capacity, reg, c);
    if Desperate(es, capacity, c) {
      var v := Victim(es, c, reg);
      HandledWhenDesperate(es, capacity, reg, c);
      DesperateVictim(es, c, reg);
      if v >= 0 {
        VictimIsExpendable(es, c, reg);
        OnlyEntryGone(es, v, r, c, true);
        OneExpendable(es, reg, v);
      }
    }
  }

  lemma HandledWhenDesperate(es: seq<Entry>, capacity: int, reg: Registration, c: Chunk)
    requires Sound(es, capacity) && Desperate(es, capacity, c)
    ensures var r, v := Handle(es, capacity, reg, c).0, Victim(es, c, reg);
            && r in {Without(es, v), [Entry(c, true, false)] + Without(es, v)}
            && (v == -1 ==> r == es)
    ensures Positive(es) && Unpinned(es)
  {
    NoneOfSource(es, c);
    hide Victim, Reflagged, FirstNewer;
  }

  lemma OneExpendable(es: seq<Entry>, reg: Registration, v: int)
    requires Expendable(es, reg, v)
    ensures forall w :: Expendable(es, reg, w) ==> w == v
  {}

  /** With one flag for each source, the chunk's admission decides. */
  lemma SourceLostIfAdmitted(es: seq<Entry>, capacity: int, reg: Registration, c: Chunk)
    requires Sound(es, capacity) && FlagsUnique(es) && c.ts > 0
    ensures SourceLost(es, Handle(es, capacity, reg, c).0)
       <==> Desperate(es, capacity, c) && Admitted(es, reg, c)
  {
    SourceLostIff(es, capacity, reg, c);
    if Desperate(es, capacity, c) && Admitted(es, reg, c) {
      DesperateVictim(es, c, reg);
      VictimIsExpendable(es, c, reg);
      var v := Victim(es, c, reg);
      hide Handle, Victim, Expendable, SourceLost;
      assert forall i :: 0 <= i < |es| ==> es[i] in es;
      assert Alone(es, v);
    }
  }

  lemma VictimIsExpendable(es: seq<Entry>, c: Chunk, reg: Registration)
    requires Positive(es) && Unpinned(es) && c.ts > 0 && Victim(es, c, reg) >= 0
    requires forall e :: e in es ==> e.newest && e.chunk.source != c.source
    ensures Expendable(es, reg, Victim(es, c, reg))
  {
    var tier := if exists j :: Foreign(es, reg, j) then Unregistered else Any;
    forall i
      ensures !Member(es, i, Same, c.source, reg) && !Member(es, i, Unflagged, c.source, reg)
      ensures Contender(es, reg, i) <==> Member(es, i, tier, c.source, reg)
      ensures Foreign(es, reg, i) <==> Member(es, i, Unregistered, c.source, reg)
    {
      assert 0 <= i < |es| ==> es[i] in es;
    }
    TierFound(es, Same, c.source, reg);
    TierFound(es, Unflagged, c.source, reg);
    TierFound(es, Unregistered, c.source, reg);
    TierFound(es, Any, c.source, reg);
    ScanFindsFirst(es, tier, c.source, reg, |es|);
    hide Scan, Foreign, Contender;
  }

  lemma DesperateVictim(es: seq<Entry>, c: Chunk, reg: Registration)
    requires Positive(es) && Unpinned(es) && c.ts > 0
    requires forall e :: e in es ==> e.newest && e.chunk.source != c.source
    ensures Victim(es, c, reg) >= 0 <==> Admitted(es, reg, c)
  {
    VictimIsLeastOfFirstTier(es, c, reg);
    hide Victim;
    forall i ensures !Member(es, i, Same, c.source, reg) && !Member(es, i, Unflagged, c.source, reg) {
      assert 0 <= i < |es| ==> es[i] in es;
    }
    if Admitted(es, reg, c) {
      var e :| e in es && ((reg.Some? && KindChar(e.chunk.source) != reg.value) || e.chunk.ts <= c.ts);
      var i :| 0 <= i < |es| && es[i] == e;
      assert Member(es, i, Any, c.source, reg);
      assert reg.Some? && KindChar(e.chunk.source) != reg.value ==> Member(es, i, Unregistered, c.source, reg);
    } else {
      forall i
        ensures !Member(es, i, Unregistered, c.source, reg)
        ensures Member(es, i, Any, c.source, reg) ==> c.ts < es[i].chunk.ts
      {
        assert 0 <= i < |es| ==> es[i] in es;
      }
    }
  }

  lemma OnlyEntryGone(es: seq<Entry>, v: int, r: seq<Entry>, c: Chunk, isNew: bool)
    requires 0 <= v < |es| && r in {Without(es, v), [Entry(c, isNew, false)] + Without(es, v)}
    requires forall e :: e in es ==> e.newest && e.chunk.source != c.source
    ensures SourceLost(es, r) <==> Alone(es, v)
  {
    var gs := Without(es, v);
    if Alone(es, v) {
      forall k | 0 <= k < |gs| ensures gs[k].chunk.source != es[v].chunk.source {
        var i := if k < v then k else k + 1;
        assert gs[k] == es[i];
      }
      assert es[v] in es;
      forall x | x in r ensures x.chunk.source != es[v].chunk.source {}
    } else {
      var w :| 0 <= w < |es| && es[w].chunk.source == es[v].chunk.source && w != v;
      var k := if w < v then w else w - 1;
      assert gs[k] == es[w] && gs[k] in r;
      InWithout(es, v);
      assert forall e :: e in es && e != es[v] ==> e in r;
    }
  }

  lemma NoneOfSource(es: seq<Entry>, c: Chunk)
    requires forall e :: e in es ==> e.chunk.source != c.source
    ensures FirstNewer(es, c) == |es| && Reflagged(es, c) == es
  {
    AbsentUnchanged(es, c);
    assert forall i :: 0 <= i < |es| ==> es[i] in es && es[i].chunk.source != c.source;
  }

  /** In a store of three the head is the oldest, and either the only unflagged entry or not newer
      than the chunk: it goes. */
  lemma HeadGoes(es: seq<Entry>, c: Chunk)
    requires |es| == 3 && Positive(es) && Unpinned(es) && forall e :: e in es ==> e.chunk.source != c.source
    requires es[1].newest && es[2].newest && c.ts > 0 && (es[0].newest ==> es[0].chunk.ts <= c.ts)
    requires es[0].chunk.ts < es[1].chunk.ts && es[0].chunk.ts < es[2].chunk.ts
    ensures Victim(es, c, None) == 0 && Without(es, 0) == es[1..]
  {
    assert es[0] in es && es[1] in es && es[2] in es;
    VictimIsLeastOfFirstTier(es, c, None);
    hide Victim;
    var tier := if es[0].newest then Any else Unflagged;
    HeadTier(es, c.source, tier);
    hide FirstTier;
    assert Member(es, 0, tier, c.source, None);
  }

  lemma HeadTier(es: seq<Entry>, s: Source, tier: Tier)
    requires |es| == 3 && es[1].newest && es[2].newest && tier == if es[0].newest then Any else Unflagged
    requires !es[0].pinned && forall i :: 0 <= i < 3 ==> es[i].chunk.source != s
    ensures FirstTier(es, s, None) == Some(tier)
  {
    assert Member(es, 0, tier, s, None);
  }

  lemma ThreeOutOfOrder(a: Source)
    ensures Run(3, None, [Chunk(a, 9, ""), Chunk(a, 5, ""), Chunk(a, 3, "")])
         == [Entry(Chunk(a, 3, ""), false, false), Entry(Chunk(a, 5, ""), true, false),
             Entry(Chunk(a, 9, ""), true, false)]
  {
    var a9, a5, a3 := Chunk(a, 9, ""), Chunk(a, 5, ""), Chunk(a, 3, "");
    hide Handle, Run;
    var s1 := [Entry(a9, true, false)];
    assert [Entry(a9, true, false)] + [] == s1;
    WithRoom([], a9);
    assert Handle([], 3, None, a9) == (s1, true);
    var s2 := [Entry(a5, false, false), Entry(a9, true, false)];
    assert FirstNewer(s1, a5) == 0 && Reflagged(s1, a5) == s1;
    assert [Entry(a5, false, false)] + s1 == s2;
    WithRoom(s1, a5);
    assert Handle(s1, 3, None, a5) == (s2, true);
    var s3 := [Entry(a3, false, false), Entry(a5, true, false), Entry(a9, true, false)];
    assert FirstNewer(s2, a3) == 0 && Reflagged(s2, a3) == s3[1..];
    assert [Entry(a3, false, false)] + s3[1..] == s3;
    WithRoom(s2, a3);
    assert Handle(s2, 3, None, a3) == (s3, true);
    RunOfNothing();
    RunStep(3, None, [], a9);
    RunStep(3, None, [a9], a5);
    RunStep(3, None, [a9, a5], a3);
    assert [] + [a9] == [a9] && [a9] + [a5] == [a9, a5] && [a9, a5] + [a3] == [a9, a5, a3];
  }

  lemma WithRoom(es: seq<Entry>, c: Chunk)
    requires |es| < 3
    ensures Handle(es, 3, None, c) == ([Entry(c, FirstNewer(es, c) == |es|, false)] + Reflagged(es, c), true)
  {}

  lemma RunOfNothing()
    ensures Run(3, None, []) == []
  {}

  lemma RunStep(capacity: int, reg: Registration, xs: seq<Chunk>, c: Chunk)
    ensures Run(capacity, reg, xs + [c]) == Handle(Run(capacity, reg, xs), capacity, reg, c).0
  {
    assert (xs + [c])[..|xs|] == xs;
  }

  /** Out of order the room for one entry of each source is not enough: three sources, a store of
      three entries, and source `b` is lost, because source `a` holds two flags. */
  lemma OutOfOrderLosesASource(a: Source, b: Source, c: Source)
    requires a != b && b != c && a != c
    ensures var xs := [Chunk(a, 9, ""), Chunk(a, 5, ""), Chunk(a, 3, "")] + [Chunk(b, 1, "")] + [Chunk(c, 2, "")];
            var es := Run(3, None, xs);
            && |Sources(xs)| == 3
            && (forall e :: e in es ==> e.chunk.source != b)
            && !FlagsUnique(es)
  {
    var a9, a5, a3, b1, c2 := Chunk(a, 9, ""), Chunk(a, 5, ""), Chunk(a, 3, ""), Chunk(b, 1, ""), Chunk(c, 2, "");
    var xs := [a9, a5, a3];
    hide Run, Handle;
    ThreeOutOfOrder(a);
    var s3 := [Entry(a3, false, false), Entry(a5, true, false), Entry(a9, true, false)];
    var s4 := [Entry(b1, true, false), Entry(a5, true, false), Entry(a9, true, false)];
    HeadReplaced(s3, b1, s4);
    RunStep(3, None, xs, b1);
    var s5 := [Entry(c2, true, false), Entry(a5, true, false), Entry(a9, true, false)];
    HeadReplaced(s4, c2, s5);
    RunStep(3, None, xs + [b1], c2);
    assert s5[1].newest && s5[2].newest;
    assert xs + [b1] + [c2] == [a9, a5, a3, b1, c2];
    assert Sources([a9, a5, a3, b1, c2]) == {a, b, c};
  }

  lemma HeadReplaced(es: seq<Entry>, c: Chunk, r: seq<Entry>)
    requires |es| == 3 && Positive(es) && Unpinned(es) && forall e :: e in es ==> e.chunk.source != c.source
    requires es[1].newest && es[2].newest && c.ts > 0 && (es[0].newest ==> es[0].chunk.ts <= c.ts)
    requires es[0].chunk.ts < es[1].chunk.ts && es[0].chunk.ts < es[2].chunk.ts
    requires r == [Entry(c, true, false)] + es[1..]
    ensures Handle(es, 3, None, c) == (r, true)
  {
    NoneOfSource(es, c);
    HeadGoes(es, c);
    hide Victim, Reflagged;
  }
}
