/** The redo log of page images, replay at open, and why replaying twice or half-way is harmless. */
module Wal {
  import opened Seqs
  import opened Store

  datatype WalEntry = WalEntry(sequence: nat, tableId: nat, pageNo: nat, image: Page)

  /** The pages of a data file and how many there are. */
  datatype Disk = Disk(pages: map<nat, Page>, count: nat)

  const MAX_ENTRIES := 0xFFFF_FFFF

  // ----- replay as a function -----

  function Put(d: Disk, p: nat, image: Page): Disk {
    Disk(d.pages[p := image], if p >= d.count then p + 1 else d.count)
  }

  /** The entries written over the file in order. */
  function Replay(d: Disk, log: seq<WalEntry>): Disk
    decreases |log|
  {
    if log == [] then d else Replay(Put(d, log[0].pageNo, log[0].image), log[1..])
  }

  /** The last image the log has of each page. */
  function Images(log: seq<WalEntry>): map<nat, Page>
    decreases |log|
  {
    if log == [] then map[] else Images(log[..|log| - 1])[log[|log| - 1].pageNo := log[|log| - 1].image]
  }

  lemma {:induction false} ReplayConcat(d: Disk, a: seq<WalEntry>, b: seq<WalEntry>)
    ensures Replay(d, a + b) == Replay(Replay(d, a), b)
    decreases |a|
  {
    if a == [] {
      EmptyFront(a, b);
    } else {
      ReplayConcat(Put(d, a[0].pageNo, a[0].image), a[1..], b);
      TailOfConcat(a, b);
    }
  }

  /** Replay overlays the last images; the count reaches past every logged page and no further. */
  lemma {:induction false} ReplayOverlays(d: Disk, log: seq<WalEntry>)
    ensures Replay(d, log).pages == d.pages + Images(log)
    ensures Replay(d, log).count >= d.count && forall p :: p in Images(log) ==> 0 <= p < Replay(d, log).count
    ensures Replay(d, log).count == d.count || (Replay(d, log).count > d.count && Replay(d, log).count - 1 in Images(log))
    decreases |log|
  {
    if log != [] {
      var n := |log| - 1;
      ReplayOverlays(d, log[..n]);
      assert log == log[..n] + [log[n]];
      ReplayConcat(d, log[..n], [log[n]]);
      assert [log[n]][1..] == [];
    }
  }

  /** Two counts that reach past the same pages from below the same bound are equal. */
  lemma CountsAgree(a: nat, b: nat, from: nat, low: nat, images: map<nat, Page>)
    requires a >= from && b >= low && from <= low <= a
    requires forall p :: p in images ==> 0 <= p < a && 0 <= p < b
    requires (a == from || a - 1 in images) && (b == low || b - 1 in images)
    ensures a == b
  {
  }

  // ----- crashes during recovery -----

  /** `e` differs from `d` at most where the log has images, and is no longer than replay makes it. */
  ghost predicate Touched(d: Disk, e: Disk, log: seq<WalEntry>) {
    && (forall p :: p !in Images(log) ==> (p in d.pages <==> p in e.pages) && (p in d.pages ==> d.pages[p] == e.pages[p]))
    && d.count <= e.count <= Replay(d, log).count
  }

  /**
   * Whatever an interrupted replay or checkpoint left in logged pages, whole images, old ones
   * or garbage, replaying the log from the start gives the same file.
   */
  lemma ReplayHeals(d: Disk, e: Disk, log: seq<WalEntry>)
    requires Touched(d, e, log)
    ensures Replay(e, log) == Replay(d, log)
  {
    ReplayOverlays(d, log);
    ReplayOverlays(e, log);
    assert d.pages + Images(log) == e.pages + Images(log);
    CountsAgree(Replay(d, log).count, Replay(e, log).count, d.count, e.count, Images(log));
  }

  lemma {:induction false} ImagesOfPrefix(log: seq<WalEntry>, k: nat)
    requires k <= |log|
    ensures Images(log[..k]).Keys <= Images(log).Keys
    decreases |log|
  {
    if k < |log| {
      var n := |log| - 1;
      ImagesOfPrefix(log[..n], k);
      assert log[..n][..k] == log[..k];
    } else {
      assert log[..k] == log;
    }
  }

  /** A crash after any number of replayed entries, and then a full replay: as if nothing had happened. */
  lemma PartialReplayHarmless(d: Disk, log: seq<WalEntry>, k: nat)
    requires k <= |log|
    ensures Replay(Replay(d, log[..k]), log) == Replay(d, log)
    ensures Replay(Replay(d, log), log) == Replay(d, log)
  {
    PrefixTouches(d, log, k);
    ReplayHeals(d, Replay(d, log[..k]), log);
    PrefixTouches(d, log, |log|);
    assert log[..|log|] == log;
    ReplayHeals(d, Replay(d, log), log);
  }

  lemma PrefixTouches(d: Disk, log: seq<WalEntry>, k: nat)
    requires k <= |log|
    ensures Touched(d, Replay(d, log[..k]), log)
  {
    ReplayOverlays(d, log[..k]);
    ImagesOfPrefix(log, k);
    CutAt(log, k);
    ReplayConcat(d, log[..k], log[k..]);
    ReplayOverlays(Replay(d, log[..k]), log[k..]);
  }

  // ----- logging a commit -----

  /** The entries log exactly these pages, in whatever order. */
  ghost predicate Logs(log: seq<WalEntry>, images: map<nat, Page>) {
    && (forall i :: 0 <= i < |log| ==> log[i].pageNo in images && log[i].image == images[log[i].pageNo])
    && forall p :: p in images ==> exists i :: 0 <= i < |log| && log[i].pageNo == p
  }

  lemma {:induction false} LoggedImages(log: seq<WalEntry>, images: map<nat, Page>)
    requires forall i :: 0 <= i < |log| ==> log[i].pageNo in images && log[i].image == images[log[i].pageNo]
    ensures forall p :: p in Images(log) ==> p in images && Images(log)[p] == images[p]
    ensures forall i :: 0 <= i < |log| ==> log[i].pageNo in Images(log)
    decreases |log|
  {
    if log != [] {
      var n := |log| - 1;
      LoggedImages(log[..n], images);
      assert forall i :: 0 <= i < n ==> log[..n][i] == log[i];
    }
  }

  /** Replaying the entries of one commit does to the file what the commit did to the cache. */
  lemma ReplayCommit(d: Disk, log: seq<WalEntry>, images: map<nat, Page>, next: nat)
    requires Logs(log, images) && d.count <= next
    requires forall p :: p in images ==> 0 <= p < next
    requires forall p :: d.count <= p < next ==> p in images
    ensures Replay(d, log) == Disk(d.pages + images, next)
  {
    LoggedImages(log, images);
    assert Images(log) == images;
    ReplayOverlays(d, log);
    if next > d.count { assert next - 1 in images; }
  }

  /** One completed commit: the staged pages, the page count after it, the entries it logged. */
  datatype Logged = Logged(images: map<nat, Page>, next: nat, entries: seq<WalEntry>)

  /** The commits publish one after another, each with every page it allocated among its images. */
  ghost predicate CommitsFrom(count: nat, commits: seq<Logged>)
    decreases |commits|
  {
    commits == [] ||
    (var c := commits[0];
     && Logs(c.entries, c.images) && count <= c.next
     && (forall p :: p in c.images ==> 0 <= p < c.next)
     && (forall p :: count <= p < c.next ==> p in c.images)
     && CommitsFrom(c.next, commits[1..]))
  }

  function Cache(d: Disk, commits: seq<Logged>): Disk
    decreases |commits|
  {
    if commits == [] then d else Cache(Disk(d.pages + commits[0].images, commits[0].next), commits[1..])
  }

  function WholeLog(commits: seq<Logged>): seq<WalEntry>
    decreases |commits|
  {
    if commits == [] then [] else commits[0].entries + WholeLog(commits[1..])
  }

  /** Redo: the whole log replayed over the old file is the cache, pages and page count. */
  lemma {:induction false} RedoRestoresCache(d: Disk, commits: seq<Logged>)
    requires CommitsFrom(d.count, commits)
    ensures Replay(d, WholeLog(commits)) == Cache(d, commits)
    decreases |commits|
  {
    if commits != [] {
      var c := commits[0];
      ReplayConcat(d, c.entries, WholeLog(commits[1..]));
      ReplayCommit(d, c.entries, c.images, c.next);
      RedoRestoresCache(Disk(d.pages + c.images, c.next), commits[1..]);
    }
  }

  // ----- the log file -----

  class Wal {
    /** Entry slots in the file; those past the count are leftovers. */
    var slots: seq<WalEntry>
    var nextSequence: nat
    var entryCount: nat

    ghost predicate Valid()
      reads this
    {
      && entryCount <= |slots| && entryCount <= MAX_ENTRIES && nextSequence == entryCount + 1
      && forall i :: 0 <= i < entryCount ==> slots[i].sequence == i + 1
    }

    ghost function Log(): seq<WalEntry>
      reads this
      requires Valid()
    {
      slots[..entryCount]
    }

    constructor ()
      ensures Valid() && Log() == []
    {
      slots, nextSequence, entryCount := [], 1, 0;
    }

    method AppendPageImage(tableId: nat, pageNo: nat, image: Page) returns (r: Option<nat>)
      requires Valid()
      modifies this
      ensures Valid()
      ensures r == if |old(Log())| == MAX_ENTRIES then None else Some(|old(Log())| + 1)
      ensures Log() == if r.None? then old(Log()) else old(Log()) + [WalEntry(r.value, tableId, pageNo, image)]
    {
      if entryCount == MAX_ENTRIES { return None; }
      var seqNo := nextSequence;
      nextSequence := nextSequence + 1;
      var entry := WalEntry(seqNo, tableId, pageNo, image);
      slots := if entryCount < |slots| then slots[entryCount := entry] else slots + [entry];
      entryCount := entryCount + 1;
      r := Some(seqNo);
    }

    method ReadEntries() returns (entries: seq<WalEntry>)
      requires Valid()
      ensures entries == Log()
    {
      entries := [];
      for i := 0 to entryCount
        invariant entries == slots[..i]
      {
        entries := entries + [slots[i]];
      }
    }

    method Truncate()
      requires Valid()
      modifies this
      ensures Valid() && Log() == []
    {
      slots, entryCount, nextSequence := [], 0, 1;
    }

    /**
     * Logs staged pages in whatever order they come: one entry each, or as many as the log has
     * room for. It succeeds exactly when the log has room for all.
     */
    method LogImages(tableId: nat, images: map<nat, Page>) returns (ok: bool, ghost added: seq<WalEntry>)
      requires Valid()
      modifies this
      ensures Valid() && Log() == old(Log()) + added
      ensures ok <==> |old(Log())| + |images| <= 0xFFFF_FFFF
      ensures ok ==> Logs(added, images) && |added| == |images|
      ensures !ok ==> |Log()| == 0xFFFF_FFFF
      ensures forall i :: 0 <= i < |added| ==>
        added[i].pageNo in images && added[i].image == images[added[i].pageNo] && added[i].tableId == tableId
    {
      var left := images;
      added := [];
      while left != map[]
        invariant Valid() && Log() == old(Log()) + added
        invariant |added| + |left| == |images|
        invariant forall i :: 0 <= i < |added| ==> added[i].tableId == tableId
        invariant forall p :: p in left ==> p in images && left[p] == images[p]
        invariant forall i :: 0 <= i < |added| ==> added[i].pageNo in images && added[i].image == images[added[i].pageNo]
        invariant forall p :: p in images && p !in left ==> exists i :: 0 <= i < |added| && added[i].pageNo == p
        decreases |left|
      {
        var p :| p in left;
        var r := AppendPageImage(tableId, p, left[p]);
        if r.None? { return false, added; }
        ghost var before := added;
        added := added + [WalEntry(r.value, tableId, p, left[p])];
        assert added[|before|].pageNo == p;
        assert forall i :: 0 <= i < |before| ==> added[i] == before[i];
        OneLess(left, p);
        left := left - {p};
      }
      return true, added;
    }
  }

  lemma OneLess(m: map<nat, Page>, p: nat)
    requires p in m
    ensures |m - {p}| == |m| - 1
  {
    assert (m - {p}).Keys == m.Keys - {p};
    assert |m| == |m.Keys| && |m - {p}| == |(m - {p}).Keys|;
  }

  /** Opening after a crash: the log is applied to the file in order, then emptied. */
  method Recover(wal: Wal, file: PageFile)
    requires wal.Valid() && file.Valid()
    modifies wal, file
    ensures wal.Valid() && wal.Log() == []
    ensures Disk(file.pages, file.numPages) == Replay(old(Disk(file.pages, file.numPages)), old(wal.Log()))
  {
    ghost var before := Disk(file.pages, file.numPages);
    if wal.entryCount > 0 {
      var entries := wal.ReadEntries();
      for i := 0 to |entries|
        invariant wal.Valid() && wal.Log() == entries
        invariant Replay(Disk(file.pages, file.numPages), entries[i..]) == Replay(before, entries)
      {
        CutAround(entries, i);
        file.PutPageDirect(entries[i].pageNo, entries[i].image);
      }
      wal.Truncate();
    }
  }

  datatype Durability = Immediate | Normal | NoLog

  /** The state of an open database: cached pages, the data file behind them, the log. */
  class Durable {
    const cache: PageFile
    const file: PageFile
    const wal: Wal

    /** Recovery from here would restore exactly the cache. */
    ghost predicate Recoverable()
      reads this, cache, file, wal
    {
      && cache != file && cache.Valid() && file.Valid() && wal.Valid()
      && Replay(Disk(file.pages, file.numPages), wal.Log()) == Disk(cache.pages, cache.numPages)
    }

    constructor ()
      ensures Recoverable() && fresh(cache) && fresh(file) && fresh(wal)
    {
      cache := new PageFile();
      file := new PageFile();
      wal := new Wal();
      new;
      assert cache.pages == map[] && file.pages == map[];
    }

    /** A commit: publish to the cache, log the images unless durability is off. */
    method CommitWrite(guard: WriteGuard, durability: Durability, tableId: nat) returns (ok: bool)
      requires Recoverable() && guard.file == cache && guard.Valid()
      modifies guard, cache, wal
      ensures old(guard.Next()) <= MAX_PAGE_NO ==> cache.pages == old(guard.View()) && cache.numPages == old(guard.Next())
      ensures ok <==>
        old(guard.Next()) <= MAX_PAGE_NO && (durability == NoLog || |old(wal.Log())| + |old(guard.dirty)| <= 0xFFFF_FFFF)
      ensures wal.Valid() && (durability == NoLog ==> wal.Log() == old(wal.Log()))
      ensures ok && durability != NoLog ==>
        && Recoverable() && |wal.Log()| == |old(wal.Log())| + |old(guard.dirty)|
        && wal.Log()[..|old(wal.Log())|] == old(wal.Log())
        && Logs(wal.Log()[|old(wal.Log())|..], old(guard.dirty))
    {
      ghost var d := Disk(file.pages, file.numPages);
      ghost var before, next := Disk(cache.pages, cache.numPages), guard.Next();
      var published := guard.Commit();
      if published.None? {
        return false;
      }
      var images := published.value;
      ok := true;
      if durability != NoLog {
        ghost var added;
        ok, added := wal.LogImages(tableId, images);
        if ok {
          assert wal.Log()[|old(wal.Log())|..] == added;
          ReplayConcat(d, old(wal.Log()), added);
          ReplayCommit(before, added, images, next);
        }
      }
    }

    /** A checkpoint writes every cached page to the file and empties the log. */
    method Checkpoint()
      requires Recoverable()
      modifies file, wal
      ensures Recoverable() && wal.Log() == []
      ensures file.pages == cache.pages && file.numPages == cache.numPages
    {
      file.pages, file.numPages := cache.pages, cache.numPages;
      wal.Truncate();
    }

    /** A crash loses the cache; opening again brings it back. */
    method CrashAndOpen()
      requires Recoverable()
      modifies cache, file, wal
      ensures Recoverable() && cache.pages == old(cache.pages) && cache.numPages == old(cache.numPages)
    {
      ghost var pages, count := cache.pages, cache.numPages;
      cache.pages, cache.numPages := map[], 0;
      Recover(wal, file);
      cache.pages, cache.numPages := file.pages, file.numPages;
    }
  }
}
