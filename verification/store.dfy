/** The content store of ccnl_helper.c: how an arriving chunk moves the newest flags and which
    entry the strategy `cs_oldest_representative` gives up for it. */
module ContentStore {
  import opened Common

  /** The first three components of a name: what `ccnl_prefix_cmp(...) >= 3` compares. */
  datatype Source = Source(site: string, kind: string, id: string)

  /** A chunk that arrives: the source and the time stamp of its name, and its content. */
  datatype Chunk = Chunk(source: Source, ts: int, data: string)

  /** A cached chunk with its flags USER1 (newest of its source) and STATIC. */
  datatype Entry = Entry(chunk: Chunk, newest: bool, pinned: bool)

  /** The prefix that the node is registered for, if any. */
  type Registration = Option<char>

  /** `comp[1][0]`. */
  function KindChar(s: Source): char { if s.kind == "" then '\0' else s.kind[0] }

  /** The four groups of entries among which `cs_oldest_representative` looks for the oldest. */
  datatype Tier = Same | Unflagged | Unregistered | Any

  predicate InTier(e: Entry, tier: Tier, s: Source, reg: Registration) {
    !e.pinned &&
    match tier
    case Same => e.chunk.source == s
    case Unflagged => !e.newest
    case Unregistered => reg.Some? && KindChar(e.chunk.source) != reg.value
    case Any => true
  }

  /** The variables that keep the oldest entry of a tier: a time stamp, 0 when there is none yet,
      and an index, -1 for NULL. */
  datatype Oldest = Oldest(ts: int, at: int)

  function Look(o: Oldest, e: Entry, i: int, member: bool): Oldest {
    if member && (o.ts == 0 || e.chunk.ts < o.ts) then Oldest(e.chunk.ts, i) else o
  }

  /** The variables after the first `n` entries. */
  function Scan(es: seq<Entry>, tier: Tier, s: Source, reg: Registration, n: nat): (o: Oldest)
    requires n <= |es|
    ensures -1 <= o.at < n
  {
    if n == 0 then Oldest(0, -1)
    else Look(Scan(es, tier, s, reg, n - 1), es[n - 1], n - 1, InTier(es[n - 1], tier, s, reg))
  }

  lemma ScanStep(es: seq<Entry>, tier: Tier, s: Source, reg: Registration, n: nat)
    requires n < |es|
    ensures Scan(es, tier, s, reg, n + 1)
         == Look(Scan(es, tier, s, reg, n), es[n], n, InTier(es[n], tier, s, reg))
  {}

  lemma ScanStart(es: seq<Entry>, s: Source, reg: Registration)
    ensures forall tier :: Scan(es, tier, s, reg, 0) == Oldest(0, -1)
  {}

  function OldestOf(es: seq<Entry>, tier: Tier, s: Source, reg: Registration): (o: Oldest)
    ensures -1 <= o.at < |es|
  {
    Scan(es, tier, s, reg, |es|)
  }

  /** The entry that the strategy removes for a chunk, -1 for none. */
  function Victim(es: seq<Entry>, c: Chunk, reg: Registration): (v: int)
    ensures -1 <= v < |es|
  {
    var same := OldestOf(es, Same, c.source, reg);
    var unflagged := OldestOf(es, Unflagged, c.source, reg);
    var unregistered := OldestOf(es, Unregistered, c.source, reg);
    var any := OldestOf(es, Any, c.source, reg);
    if same.ts > c.ts then -1
    else if same.at >= 0 then same.at
    else if unflagged.at >= 0 then unflagged.at
    else if unregistered.at >= 0 then unregistered.at
    else if any.ts > c.ts then -1
    else any.at
  }

  function Without(es: seq<Entry>, v: int): seq<Entry>
    requires -1 <= v < |es|
  {
    if v == -1 then es else es[..v] + es[v + 1..]
  }

  /** The first entry of the source of `c` that is newer than `c`; the length when there is none. */
  function FirstNewer(es: seq<Entry>, c: Chunk): (n: nat)
    ensures n <= |es|
    ensures n < |es| ==> es[n].chunk.source == c.source && es[n].chunk.ts > c.ts
    ensures forall i :: 0 <= i < n ==> es[i].chunk.source == c.source ==> es[i].chunk.ts <= c.ts
  {
    if |es| == 0 then 0
    else if es[0].chunk.source == c.source && es[0].chunk.ts > c.ts then 0
    else
      var n := FirstNewer(es[1..], c);
      assert forall i :: 0 < i < n + 1 ==> es[i] == es[1..][i - 1];
      n + 1
  }

  function Unflag(e: Entry, visited: bool, c: Chunk): Entry {
    if visited && e.chunk.source == c.source then Entry(e.chunk, false, false) else e
  }

  /** The flags after the pass over the store: every entry of the source up to the first newer one
      loses its flags, and that one becomes the newest again. */
  function Reflagged(es: seq<Entry>, c: Chunk): (r: seq<Entry>)
    ensures |r| == |es|
    ensures forall i :: 0 <= i < |es| ==> r[i].chunk == es[i].chunk
  {
    var n := FirstNewer(es, c);
    seq(|es|, i requires 0 <= i < |es| =>
      if i <= n && es[i].chunk.source == c.source then Entry(es[i].chunk, i == n, false) else es[i])
  }

  /** `ccnl_content_add2cache`, for a capacity that is a limit or unlimited (negative): at capacity
      the strategy runs, and the entry goes to the head of the list if there is room then. */
  function Added(es: seq<Entry>, capacity: int, reg: Registration, entry: Entry): (r: (seq<Entry>, bool)) {
    var gs := if capacity > 0 && |es| >= capacity then Without(es, Victim(es, entry.chunk, reg)) else es;
    if capacity < 0 || |gs| < capacity then ([entry] + gs, true) else (gs, false)
  }

  /** The store and the answer after a chunk; with capacity 0 nothing is cached. */
  function Handle(es: seq<Entry>, capacity: int, reg: Registration, c: Chunk): (r: (seq<Entry>, bool)) {
    if capacity == 0 then (Reflagged(es, c), false)
    else Added(Reflagged(es, c), capacity, reg, Entry(c, FirstNewer(es, c) == |es|, false))
  }

  class Relay {
    /** The list `contents`, its head first. */
    var contents: seq<Entry>
    const maxCacheEntries: int
    var registration: Registration

    constructor (capacity: int, reg: Registration)
      ensures contents == [] && maxCacheEntries == capacity && registration == reg
    {
      contents := [];
      maxCacheEntries := capacity;
      registration := reg;
    }

    /** `_ccnl_helper_handle_content`. */
    method HandleContent(c: Chunk) returns (ok: bool)
      modifies this`contents
      ensures (contents, ok) == Handle(old(contents), maxCacheEntries, registration, c)
    {
      var newest := MoveFlags(c);
      var entry := Entry(c, newest == -1, false);
      if newest != -1 {
        contents := contents[newest := contents[newest].(newest := true)];
      }
      assert contents == Reflagged(old(contents), c);
      if maxCacheEntries != 0 {
        ok := AddToCache(entry);
      } else {
        ok := false;
      }
    }

    /** The loop that unflags the source up to the first newer entry, which it returns. */
    method MoveFlags(c: Chunk) returns (newest: int)
      modifies this`contents
      ensures newest == (if FirstNewer(old(contents), c) < |old(contents)| then FirstNewer(old(contents), c) else -1)
      ensures |contents| == |old(contents)|
      ensures forall i :: 0 <= i < |contents| ==>
        contents[i] == Unflag(old(contents)[i], i <= FirstNewer(old(contents), c), c)
    {
      ghost var es, n := contents, FirstNewer(contents, c);
      newest := -1;
      var i := 0;
      while i < |contents|
        invariant 0 <= i <= |contents| == |es| && i <= n
        invariant forall k :: 0 <= k < |es| ==> contents[k] == Unflag(es[k], k < i, c)
      {
        var cit := contents[i];
        if cit.chunk.source == c.source {
          contents := contents[i := cit.(newest := false, pinned := false)];
          if cit.chunk.ts > c.ts {
            newest := i;
            break;
          }
        }
        i := i + 1;
      }
    }

    /** The contract under which `ccnl_content_add2cache` of CCN-lite is used. */
    method AddToCache(entry: Entry) returns (ok: bool)
      requires maxCacheEntries != 0
      modifies this`contents
      ensures (contents, ok) == Added(old(contents), maxCacheEntries, registration, entry)
    {
      if maxCacheEntries > 0 && |contents| >= maxCacheEntries {
        OldestRepresentative(entry.chunk);
      }
      ok := maxCacheEntries < 0 || |contents| < maxCacheEntries;
      if ok {
        contents := [entry] + contents;
      }
    }

    method Remove(v: int)
      requires 0 <= v < |contents|
      modifies this`contents
      ensures contents == Without(old(contents), v)
    {
      contents := contents[..v] + contents[v + 1..];
    }

    /** `cs_oldest_representative`. */
    method OldestRepresentative(c: Chunk)
      modifies this`contents
      ensures contents == Without(old(contents), Victim(old(contents), c, registration))
    {
      hide Scan;
      ScanStart(contents, c.source, registration);
      var oldest, oldestSame, oldestUnflagged, oldestUnregistered := -1, -1, -1, -1;
      var oldestTs, oldestSameTs, oldestUnflaggedTs, oldestUnregisteredTs := 0, 0, 0, 0;
      for i := 0 to |contents|
        invariant contents == old(contents)
        invariant Oldest(oldestSameTs, oldestSame) == Scan(contents, Same, c.source, registration, i)
        invariant Oldest(oldestUnflaggedTs, oldestUnflagged) == Scan(contents, Unflagged, c.source, registration, i)
        invariant Oldest(oldestTs, oldest) == Scan(contents, Any, c.source, registration, i)
        invariant Oldest(oldestUnregisteredTs, oldestUnregistered) ==
                  Scan(contents, Unregistered, c.source, registration, i)
      {
        ScanStep(contents, Same, c.source, registration, i);
        ScanStep(contents, Unflagged, c.source, registration, i);
        ScanStep(contents, Any, c.source, registration, i);
        ScanStep(contents, Unregistered, c.source, registration, i);
        var c2 := contents[i];
        var ts := c2.chunk.ts;
        if !c2.pinned {
          if c2.chunk.source == c.source {
            if oldestSameTs == 0 || ts < oldestSameTs {
              oldestSameTs, oldestSame := ts, i;
            }
          }
          if !c2.newest {
            if oldestUnflaggedTs == 0 || ts < oldestUnflaggedTs {
              oldestUnflaggedTs, oldestUnflagged := ts, i;
            }
          }
          if oldestTs == 0 || ts < oldestTs {
            oldestTs, oldest := ts, i;
          }
          if registration.Some? && KindChar(c2.chunk.source) != registration.value {
            if oldestUnregisteredTs == 0 || ts < oldestUnregisteredTs {
              oldestUnregisteredTs, oldestUnregistered := ts, i;
            }
          }
        }
      }
      if oldestSameTs > c.ts {
        return;
      }
      if oldestSame != -1 {
        Remove(oldestSame);
        return;
      }
      if oldestUnflagged != -1 {
        Remove(oldestUnflagged);
        return;
      }
      if oldestUnregistered != -1 {
        Remove(oldestUnregistered);
        return;
      }
      if oldestTs > c.ts {
        return;
      }
      if oldest != -1 {
        Remove(oldest);
      }
    }
  }
}
