/** What the content store keeps: which entry is evicted, that the newest value of a source stays
    flagged, when a source can be lost, and whole runs in which nothing is lost. */
module ContentStoreProperties {
  import opened Common
  import opened ContentStore

  ghost predicate Positive(es: seq<Entry>) { forall e :: e in es ==> e.chunk.ts > 0 }

  /** No entry is STATIC; with DOW_PRIO_CACHE 0 nothing sets that flag. */
  ghost predicate Unpinned(es: seq<Entry>) { forall e :: e in es ==> !e.pinned }

  // ----- Which entry is evicted

  ghost predicate Member(es: seq<Entry>, i: int, tier: Tier, s: Source, reg: Registration) {
    0 <= i < |es| && InTier(es[i], tier, s, reg)
  }

  ghost predicate Inhabited(es: seq<Entry>, tier: Tier, s: Source, reg: Registration) {
    exists i :: Member(es, i, tier, s, reg)
  }

  ghost predicate Least(es: seq<Entry>, at: int, tier: Tier, s: Source, reg: Registration) {
    Member(es, at, tier, s, reg) &&
    forall i :: Member(es, i, tier, s, reg) ==> es[at].chunk.ts <= es[i].chunk.ts
  }

  /** The last of the first `n` entries that belong to a tier, -1 if none does. */
  function LastMember(es: seq<Entry>, tier: Tier, s: Source, reg: Registration, n: nat): (l: int)
    requires n <= |es|
    ensures l == -1 || (0 <= l < n && InTier(es[l], tier, s, reg))
    ensures forall i :: l < i < n ==> !InTier(es[i], tier, s, reg)
  {
    if n == 0 then -1
    else if InTier(es[n - 1], tier, s, reg) then n - 1
    else LastMember(es, tier, s, reg, n - 1)
  }

  lemma {:induction false} ScanFinds(es: seq<Entry>, tier: Tier, s: Source, reg: Registration, n: nat)
    requires n <= |es| && forall e :: e in es ==> e.chunk.ts >= 0
    ensures var o := Scan(es, tier, s, reg, n);
            var l := LastMember(es, tier, s, reg, n);
            && (o.at == -1 <==> l == -1)
            && (o.at == -1 ==> o.ts == 0)
            && (o.at >= 0 ==> InTier(es[o.at], tier, s, reg) && o.ts == es[o.at].chunk.ts)
            && (o.at >= 0 ==> (o.ts == 0 <==> es[l].chunk.ts == 0))
            && ((forall i :: 0 <= i < n && InTier(es[i], tier, s, reg) ==> es[i].chunk.ts > 0) ==>
                 forall i :: 0 <= i < n && InTier(es[i], tier, s, reg) ==> o.ts <= es[i].chunk.ts)
  {
    if n > 0 {
      ScanFinds(es, tier, s, reg, n - 1);
      assert es[n - 1] in es;
    }
  }

  /** The search finds an oldest entry of its tier exactly when no time stamp in the tier is the
      sentinel 0, or that of its last entry is. */
  lemma OldestIsLeastIff(es: seq<Entry>, tier: Tier, s: Source, reg: Registration)
    requires forall e :: e in es ==> e.chunk.ts >= 0
    requires Inhabited(es, tier, s, reg)
    ensures Least(es, OldestOf(es, tier, s, reg).at, tier, s, reg) <==>
            (forall i :: Member(es, i, tier, s, reg) ==> es[i].chunk.ts != 0)
            || es[LastMember(es, tier, s, reg, |es|)].chunk.ts == 0
  {
    ScanFinds(es, tier, s, reg, |es|);
    var l, o := LastMember(es, tier, s, reg, |es|), OldestOf(es, tier, s, reg);
    var m :| Member(es, m, tier, s, reg);
    assert forall i :: Member(es, i, tier, s, reg) ==> es[i] in es;
    if es[l].chunk.ts != 0 && exists i :: Member(es, i, tier, s, reg) && es[i].chunk.ts == 0 {
      var z :| Member(es, z, tier, s, reg) && es[z].chunk.ts == 0;
      assert es[o.at].chunk.ts > es[z].chunk.ts;
    }
  }

  /** The sentinel at work: an entry with time stamp 0 is passed over for a newer one. */
  lemma ZeroStampIsPassedOver()
    ensures var a, b := Source("s", "t", "a"), Source("s", "t", "b");
            var es := [Entry(Chunk(a, 0, ""), true, false), Entry(Chunk(b, 5, ""), true, false)];
            Victim(es, Chunk(Source("s", "t", "c"), 9, ""), None) == 1
  {
    var a, b, c := Source("s", "t", "a"), Source("s", "t", "b"), Source("s", "t", "c");
    var es := [Entry(Chunk(a, 0, ""), true, false), Entry(Chunk(b, 5, ""), true, false)];
    assert a.id != c.id && b.id != c.id by {
      assert "a"[0] != "c"[0] && "b"[0] != "c"[0];
    }
    forall tier ensures Scan(es, tier, c, None, 2) == if tier == Any then Oldest(5, 1) else Oldest(0, -1) {
      ScanStep(es, tier, c, None, 0);
      ScanStep(es, tier, c, None, 1);
    }
  }

  /** The tier in which the entry to remove is looked for. */
  ghost function FirstTier(es: seq<Entry>, s: Source, reg: Registration): Option<Tier> {
    if Inhabited(es, Same, s, reg) then Some(Same)
    else if Inhabited(es, Unflagged, s, reg) then Some(Unflagged)
    else if Inhabited(es, Unregistered, s, reg) then Some(Unregistered)
    else if Inhabited(es, Any, s, reg) then Some(Any)
    else None
  }

  /** The chunk is older than every entry of a tier that is compared with it. */
  ghost predicate TooOld(es: seq<Entry>, c: Chunk, tier: Tier, reg: Registration) {
    (tier == Same || tier == Any) && forall i :: Member(es, i, tier, c.source, reg) ==> c.ts < es[i].chunk.ts
  }

  /** At most one entry goes: an oldest of the first tier that has any, unless the chunk is older. */
  lemma VictimIsLeastOfFirstTier(es: seq<Entry>, c: Chunk, reg: Registration)
    requires Positive(es) && c.ts > 0
    ensures match FirstTier(es, c.source, reg)
            case None => Victim(es, c, reg) == -1
            case Some(tier) =>
              if TooOld(es, c, tier, reg) then Victim(es, c, reg) == -1
              else Least(es, Victim(es, c, reg), tier, c.source, reg)
  {
    TierFound(es, Same, c.source, reg);
    TierFound(es, Unflagged, c.source, reg);
    TierFound(es, Unregistered, c.source, reg);
    TierFound(es, Any, c.source, reg);
    hide OldestOf;
  }

  /** A registered node that has only newest values of other sources, one of them of a kind that does not
      start with the character it is registered for, gives up one of those kinds. */
  lemma RegisteredKindIsSpared(es: seq<Entry>, c: Chunk, r: char)
    requires Positive(es) && Unpinned(es) && c.ts > 0 && r != '\0'
    requires forall e :: e in es ==> e.newest && e.chunk.source != c.source
    requires exists e :: e in es && !([r] <= e.chunk.source.kind)
    ensures var v := Victim(es, c, Some(r));
            && v >= 0 && !([r] <= es[v].chunk.source.kind)
            && forall e :: e in es && !([r] <= e.chunk.source.kind) ==> es[v].chunk.ts <= e.chunk.ts
  {
    VictimIsLeastOfFirstTier(es, c, Some(r));
    hide Victim;
    assert forall i :: 0 <= i < |es| ==> es[i] in es;
    forall e | e in es && !([r] <= e.chunk.source.kind)
      ensures exists i :: Member(es, i, Unregistered, c.source, Some(r)) && es[i] == e
    {
      var i :| 0 <= i < |es| && es[i] == e;
      assert Member(es, i, Unregistered, c.source, Some(r));
    }
  }

  lemma TierFound(es: seq<Entry>, tier: Tier, s: Source, reg: Registration)
    requires Positive(es)
    ensures var o := OldestOf(es, tier, s, reg);
            if Inhabited(es, tier, s, reg) then Least(es, o.at, tier, s, reg) && o.ts == es[o.at].chunk.ts
            else o == Oldest(0, -1)
  {
    ScanFinds(es, tier, s, reg, |es|);
    assert forall i :: 0 <= i < |es| ==> es[i] in es;
    if Inhabited(es, tier, s, reg) {
      OldestIsLeastIff(es, tier, s, reg);
    } else {
      var o := OldestOf(es, tier, s, reg);
      assert !Member(es, o.at, tier, s, reg);
    }
  }

  /** A pinned entry is never given up. */
  lemma PinnedIsSpared(es: seq<Entry>, c: Chunk, reg: Registration)
    ensures var v := Victim(es, c, reg); v >= 0 ==> !es[v].pinned
  {
    ScanUnpinned(es, Same, c.source, reg, |es|);
    ScanUnpinned(es, Unflagged, c.source, reg, |es|);
    ScanUnpinned(es, Unregistered, c.source, reg, |es|);
    ScanUnpinned(es, Any, c.source, reg, |es|);
  }

  lemma {:induction false} ScanUnpinned(es: seq<Entry>, tier: Tier, s: Source, reg: Registration, n: nat)
    requires n <= |es|
    ensures var o := Scan(es, tier, s, reg, n); o.at >= 0 ==> !es[o.at].pinned
  {
    if n > 0 {
      ScanUnpinned(es, tier, s, reg, n - 1);
    }
  }

  /** Among equally old entries the search finds the first one. */
  lemma {:induction false} ScanFindsFirst(es: seq<Entry>, tier: Tier, s: Source, reg: Registration, n: nat)
    requires n <= |es| && Positive(es)
    ensures var o := Scan(es, tier, s, reg, n);
            && (o.at == -1 <==> o.ts == 0)
            && (o.at >= 0 ==> o.ts == es[o.at].chunk.ts)
            && forall i :: 0 <= i < o.at && InTier(es[i], tier, s, reg) ==> o.ts < es[i].chunk.ts
  {
    assert forall i :: 0 <= i < |es| ==> es[i] in es;
    if n > 0 {
      ScanFindsFirst(es, tier, s, reg, n - 1);
      ScanBefore(es, tier, s, reg, n - 1);
    }
  }

  lemma ScanBefore(es: seq<Entry>, tier: Tier, s: Source, reg: Registration, n: nat)
    requires n <= |es| && Positive(es)
    ensures var o := Scan(es, tier, s, reg, n);
            forall i :: 0 <= i < n && InTier(es[i], tier, s, reg) ==> o.at >= 0 && o.ts <= es[i].chunk.ts
  {
    assert forall i :: 0 <= i < n ==> es[i] in es;
    ScanFinds(es, tier, s, reg, n);
  }

  // ----- The newest value of every source is flagged, whatever the order of arrival

  /** A flagged entry of the source that no entry of it is newer than. */
  ghost predicate Top(es: seq<Entry>, t: Entry, s: Source) {
    t in es && t.newest && t.chunk.source == s &&
    forall e :: e in es && e.chunk.source == s ==> e.chunk.ts <= t.chunk.ts
  }

  ghost predicate HasTop(es: seq<Entry>, s: Source) { exists t :: Top(es, t, s) }

  ghost predicate NewestFlagged(es: seq<Entry>) { forall e :: e in es ==> HasTop(es, e.chunk.source) }

  lemma InWithout(es: seq<Entry>, v: int)
    requires -1 <= v < |es|
    ensures forall e :: e in Without(es, v) ==> e in es
    ensures forall e :: e in es && (v == -1 || e != es[v]) ==> e in Without(es, v)
  {
    if v >= 0 {
      assert es == es[..v] + [es[v]] + es[v + 1..];
    }
  }

  /** The pass over the store: each entry of the source that no earlier one stopped the pass at loses its pin,
      and is the newest afterwards exactly when it is newer than the chunk; all else stays as it is. */
  lemma FlagsAfterPass(es: seq<Entry>, c: Chunk, i: nat)
    requires i < |es|
    ensures var reached := forall j :: 0 <= j < i && es[j].chunk.source == c.source ==> es[j].chunk.ts <= c.ts;
            Reflagged(es, c)[i] ==
            if reached && es[i].chunk.source == c.source then Entry(es[i].chunk, es[i].chunk.ts > c.ts, false)
            else es[i]
  {
    var n := FirstNewer(es, c);
    if i > n {
      assert es[n].chunk.source == c.source && es[n].chunk.ts > c.ts;
    }
  }

  /** While a chunk is handled: what still holds for every source but, for a newest chunk, its own. */
  ghost predicate NewestFlaggedBut(es: seq<Entry>, c: Chunk, isNew: bool) {
    && (forall e :: e in es && (isNew ==> e.chunk.source != c.source) ==> HasTop(es, e.chunk.source))
    && (isNew ==> forall e :: e in es && e.chunk.source == c.source ==> e.chunk.ts <= c.ts)
    && (!isNew ==> exists e :: e in es && e.chunk.source == c.source && e.chunk.ts > c.ts)
  }

  lemma FlagsMove(es: seq<Entry>, c: Chunk)
    requires NewestFlagged(es)
    ensures NewestFlaggedBut(Reflagged(es, c), c, FirstNewer(es, c) == |es|)
  {
    var n, fs := FirstNewer(es, c), Reflagged(es, c);
    forall e | e in fs && (n == |es| ==> e.chunk.source != c.source) ensures HasTop(fs, e.chunk.source) {
      TopAfterPass(es, c, e);
    }
    hide NewestFlagged, HasTop;
    forall e | e in fs && e.chunk.source == c.source && n == |es| ensures e.chunk.ts <= c.ts {
      var i :| 0 <= i < |fs| && fs[i] == e;
    }
    if n < |es| {
      assert fs[n] in fs;
    }
  }

  lemma TopAfterPass(es: seq<Entry>, c: Chunk, e: Entry)
    requires NewestFlagged(es) && e in Reflagged(es, c)
    requires FirstNewer(es, c) == |es| ==> e.chunk.source != c.source
    ensures HasTop(Reflagged(es, c), e.chunk.source)
  {
    var n, fs, s := FirstNewer(es, c), Reflagged(es, c), e.chunk.source;
    var i :| 0 <= i < |fs| && fs[i] == e;
    assert es[i] in es && es[i].chunk.source == s;
    assert HasTop(es, s);
    var t :| Top(es, t, s);
    var j :| 0 <= j < |es| && es[j] == t;
    hide NewestFlagged, HasTop;
    if s == c.source {
      assert es[n] in es && j >= n;
    }
    TopMoves(es, fs, j, s);
    assert HasTop(fs, s) by { assert Top(fs, fs[j], s); HasTopFrom(fs, fs[j], s); }
  }

  lemma HasTopFrom(es: seq<Entry>, t: Entry, s: Source)
    requires Top(es, t, s)
    ensures HasTop(es, s)
  {}

  lemma TopMoves(es: seq<Entry>, fs: seq<Entry>, j: int, s: Source)
    requires |es| == |fs| && 0 <= j < |es| && Top(es, es[j], s) && fs[j].newest
    requires forall i :: 0 <= i < |es| ==> fs[i].chunk == es[i].chunk
    ensures Top(fs, fs[j], s)
  {
    forall e | e in fs && e.chunk.source == s ensures e.chunk.ts <= fs[j].chunk.ts {
      var i :| 0 <= i < |fs| && fs[i] == e;
      assert es[i] in es;
    }
  }

  /** Any non-empty set of entries of a source has one that is not older than the others. */
  lemma {:induction false} MostRecent(es: seq<Entry>, s: Source) returns (t: Entry)
    requires exists e :: e in es && e.chunk.source == s
    ensures t in es && t.chunk.source == s
    ensures forall e :: e in es && e.chunk.source == s ==> e.chunk.ts <= t.chunk.ts
  {
    if es[0].chunk.source == s && forall e :: e in es[1..] ==> e.chunk.source != s {
      return es[0];
    }
    var u := MostRecent(es[1..], s);
    t := if es[0].chunk.source == s && es[0].chunk.ts > u.chunk.ts then es[0] else u;
  }

  lemma EvictionKeepsFlags(fs: seq<Entry>, c: Chunk, reg: Registration, isNew: bool)
    requires Positive(fs) && Unpinned(fs) && c.ts > 0 && NewestFlaggedBut(fs, c, isNew)
    ensures NewestFlaggedBut(Without(fs, Victim(fs, c, reg)), c, isNew)
  {
    var v := Victim(fs, c, reg);
    if v == -1 {
      return;
    }
    var gs := Without(fs, v);
    InWithout(fs, v);
    VictimIsLeastOfFirstTier(fs, c, reg);
    hide Victim;
    var tier := FirstTier(fs, c.source, reg).value;
    VictimOfTier(fs, c, reg, tier, v, isNew);
    NewerNotTop(fs, c, isNew, fs[v]);
    forall e | e in gs && (isNew ==> e.chunk.source != c.source) ensures HasTop(gs, e.chunk.source) {
      assert HasTop(fs, e.chunk.source);
      TopAfterEviction(fs, gs, fs[v], e.chunk.source, tier == Same || tier == Unflagged);
    }
  }

  /** No entry of the source that is not newer than the chunk is on top while a newer one is there. */
  lemma NewerNotTop(fs: seq<Entry>, c: Chunk, isNew: bool, e: Entry)
    requires NewestFlaggedBut(fs, c, isNew) && e in fs
    ensures !isNew && e.chunk.source == c.source && e.chunk.ts <= c.ts ==> !Top(fs, e, c.source)
    ensures forall s :: !e.newest || e.chunk.source != s ==> !Top(fs, e, s)
  {}

  /** A source that still has an entry still has a flagged one on top. */
  lemma TopAfterEviction(fs: seq<Entry>, gs: seq<Entry>, gone: Entry, s: Source, spared: bool)
    requires HasTop(fs, s) && exists e :: e in gs && e.chunk.source == s
    requires (forall e :: e in gs ==> e in fs) && (forall e :: e in fs && e != gone ==> e in gs)
    requires if spared then !Top(fs, gone, s) else forall e :: e in fs ==> e.newest
    ensures HasTop(gs, s)
  {
    if spared {
      var t :| Top(fs, t, s);
      assert Top(gs, t, s);
    } else {
      var t := MostRecent(gs, s);
      assert Top(gs, t, s);
    }
  }

  /** What is known of the victim in each tier. */
  lemma VictimOfTier(fs: seq<Entry>, c: Chunk, reg: Registration, tier: Tier, v: int, isNew: bool)
    requires Unpinned(fs) && FirstTier(fs, c.source, reg) == Some(tier)
    requires Least(fs, v, tier, c.source, reg) && !TooOld(fs, c, tier, reg)
    requires !isNew ==> exists e :: e in fs && e.chunk.source == c.source && e.chunk.ts > c.ts
    ensures tier == Same ==> fs[v].chunk.source == c.source && fs[v].chunk.ts <= c.ts
    ensures tier == Unflagged ==> !fs[v].newest
    ensures tier == Unregistered || tier == Any ==> forall e :: e in fs ==> e.newest
    ensures tier != Same ==> isNew && forall e :: e in fs ==> e.chunk.source != c.source
  {
    assert forall i :: 0 <= i < |fs| ==> fs[i] in fs;
    forall e | e in fs
      ensures tier != Same ==> e.chunk.source != c.source
      ensures tier == Unregistered || tier == Any ==> e.newest
    {
      var i :| 0 <= i < |fs| && fs[i] == e;
      if tier != Same {
        assert !Member(fs, i, Same, c.source, reg);
      }
      if tier == Unregistered || tier == Any {
        assert !Member(fs, i, Unflagged, c.source, reg);
      }
    }
  }

  /** Every state of a run of the store. */
  ghost predicate Sound(es: seq<Entry>, capacity: int) {
    Positive(es) && Unpinned(es) && NewestFlagged(es) && (capacity >= 0 ==> |es| <= capacity)
  }

  /** Arrival in any order: a newest entry of every cached source is flagged. */
  lemma HandleKeepsSound(es: seq<Entry>, capacity: int, reg: Registration, c: Chunk)
    requires Sound(es, capacity) && c.ts > 0
    ensures Sound(Handle(es, capacity, reg, c).0, capacity)
  {
    FlagsMove(es, c);
    PassKeeps(es, c);
    if capacity != 0 {
      AddedIsSound(Reflagged(es, c), capacity, reg, c, FirstNewer(es, c) == |es|);
      hide Reflagged, NewestFlagged, NewestFlaggedBut, Added;
    } else {
      NothingFlagged();
    }
  }

  lemma AddedIsSound(fs: seq<Entry>, capacity: int, reg: Registration, c: Chunk, isNew: bool)
    requires Positive(fs) && Unpinned(fs) && c.ts > 0 && NewestFlaggedBut(fs, c, isNew)
    requires capacity != 0 && (capacity > 0 ==> |fs| <= capacity)
    ensures Sound(Added(fs, capacity, reg, Entry(c, isNew, false)).0, capacity)
  {
    hide Positive, Unpinned, NewestFlagged, Victim, NewestFlaggedBut;
    var full := capacity > 0 && |fs| >= capacity;
    var gs := if full then Without(fs, Victim(fs, c, reg)) else fs;
    if full {
      EvictionKeepsAll(fs, c, reg, isNew);
    }
    if capacity < 0 || |gs| < capacity {
      Insertion(gs, c, isNew);
    }
  }

  lemma NothingFlagged()
    ensures NewestFlagged([])
  {}

  lemma EvictionKeepsAll(fs: seq<Entry>, c: Chunk, reg: Registration, isNew: bool)
    requires Positive(fs) && Unpinned(fs) && c.ts > 0 && NewestFlaggedBut(fs, c, isNew)
    ensures var gs := Without(fs, Victim(fs, c, reg));
            && Positive(gs) && Unpinned(gs) && NewestFlaggedBut(gs, c, isNew)
            && (|gs| == |fs| ==> NewestFlagged(gs))
  {
    EvictionKeepsFlags(fs, c, reg, isNew);
    InWithout(fs, Victim(fs, c, reg));
    if Victim(fs, c, reg) == -1 {
      RefusedIsAbsent(fs, c, reg, isNew);
    }
    hide Victim, NewestFlagged, NewestFlaggedBut;
  }

  lemma PassKeeps(es: seq<Entry>, c: Chunk)
    requires Positive(es) && Unpinned(es)
    ensures Positive(Reflagged(es, c)) && Unpinned(Reflagged(es, c))
  {
    var fs := Reflagged(es, c);
    forall e | e in fs ensures e.chunk.ts > 0 && !e.pinned {
      var i :| 0 <= i < |fs| && fs[i] == e;
      assert es[i] in es;
    }
  }

  /** When nothing is evicted for a newest chunk, its source has no entry. */
  lemma RefusedIsAbsent(fs: seq<Entry>, c: Chunk, reg: Registration, isNew: bool)
    requires Positive(fs) && Unpinned(fs) && c.ts > 0 && NewestFlaggedBut(fs, c, isNew) && Victim(fs, c, reg) == -1
    ensures isNew ==> forall e :: e in fs ==> e.chunk.source != c.source
    ensures NewestFlagged(fs)
  {
    VictimIsLeastOfFirstTier(fs, c, reg);
    hide Victim, HasTop;
    if isNew {
      forall e | e in fs ensures e.chunk.source != c.source {
        var i :| 0 <= i < |fs| && fs[i] == e;
        assert e.chunk.source == c.source ==> Member(fs, i, Same, c.source, reg);
      }
    }
  }

  lemma Insertion(gs: seq<Entry>, c: Chunk, isNew: bool)
    requires Positive(gs) && Unpinned(gs) && c.ts > 0 && NewestFlaggedBut(gs, c, isNew)
    ensures var r := [Entry(c, isNew, false)] + gs;
            Positive(r) && Unpinned(r) && NewestFlagged(r)
  {
    var x := Entry(c, isNew, false);
    var r := [x] + gs;
    assert forall e :: e in r <==> e == x || e in gs;
    forall e | e in r ensures HasTop(r, e.chunk.source) {
      var s := e.chunk.source;
      if isNew && s == c.source {
        assert Top(r, x, s);
      } else {
        var y :| y in gs && y.chunk.source == s && (s == c.source ==> y.chunk.ts > c.ts);
        assert HasTop(gs, s);
        var t :| Top(gs, t, s);
        assert Top(r, t, s);
      }
    }
  }
}
