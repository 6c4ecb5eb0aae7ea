/** Resumable cursors: what one batch returns, and how batches tile a scan. */
module Cursor {
  import opened Seqs
  import opened BTree
  import opened Store

  datatype Dir = Asc | Desc

  /** Exclusive resume bound in scan direction. */
  predicate Beyond(dir: Dir, after: Option<nat>, id: nat) {
    after.None? || (if dir.Asc? then id > after.value else id < after.value)
  }

  /** The rows of a scan list past the bound. */
  function Candidates(list: seq<Entry>, dir: Dir, after: Option<nat>): seq<Entry> {
    if list == [] then []
    else (if Beyond(dir, after, list[0].id) then [list[0]] else []) + Candidates(list[1..], dir, after)
  }

  function Passing(list: seq<Entry>, keep: Entry -> bool): seq<Entry> {
    if list == [] then []
    else (if keep(list[0]) then [list[0]] else []) + Passing(list[1..], keep)
  }

  predicate HasId(rows: seq<Entry>, id: nat) {
    exists i :: 0 <= i < |rows| && rows[i].id == id
  }

  datatype Batch = Batch(rows: seq<Entry>, last: Option<nat>)

  /** Collecting over candidates: a full batch that meets one more candidate gives a resume bound. */
  function Collect(c: seq<Entry>, limit: nat, keep: Entry -> bool, acc: seq<Entry>): Batch
    decreases |c|
  {
    if c == [] then Batch(acc, None)
    else if |acc| >= limit then Batch(acc, if acc == [] then None else Some(acc[|acc| - 1].id))
    else Collect(c[1..], limit, keep, if keep(c[0]) then acc + [c[0]] else acc)
  }

  /** One call of the cursor over a list in scan order. */
  function ScanBatch(list: seq<Entry>, dir: Dir, after: Option<nat>, limit: nat, keep: Entry -> bool): Batch {
    if limit == 0 then Batch([], None) else Collect(Candidates(list, dir, after), limit, keep, [])
  }

  predicate InScanOrder(list: seq<Entry>, dir: Dir) {
    forall i, j :: 0 <= i < j < |list| ==> if dir.Asc? then list[i].id < list[j].id else list[i].id > list[j].id
  }

  // ----- one batch -----

  lemma {:induction false} PassingConcat(a: seq<Entry>, b: seq<Entry>, keep: Entry -> bool)
    ensures Passing(a + b, keep) == Passing(a, keep) + Passing(b, keep)
  {
    if a == [] {
      EmptyFront(a, b);
    } else {
      PassingConcat(a[1..], b, keep);
      TailOfConcat(a, b);
    }
  }

  lemma {:induction false} CandidatesConcat(a: seq<Entry>, b: seq<Entry>, dir: Dir, after: Option<nat>)
    ensures Candidates(a + b, dir, after) == Candidates(a, dir, after) + Candidates(b, dir, after)
  {
    if a == [] {
      EmptyFront(a, b);
    } else {
      CandidatesConcat(a[1..], b, dir, after);
      TailOfConcat(a, b);
    }
  }

  lemma {:induction false} AllCandidates(list: seq<Entry>, dir: Dir, after: Option<nat>)
    requires forall e :: e in list ==> Beyond(dir, after, e.id)
    ensures Candidates(list, dir, after) == list
  {
    if list != [] { AllCandidates(list[1..], dir, after); }
  }

  lemma {:induction false} NoCandidates(list: seq<Entry>, dir: Dir, after: Option<nat>)
    requires forall e :: e in list ==> !Beyond(dir, after, e.id)
    ensures Candidates(list, dir, after) == []
  {
    if list != [] { NoCandidates(list[1..], dir, after); }
  }

  /** In scan order the candidates are a tail of the list. */
  lemma {:induction false} CandidatesTail(list: seq<Entry>, dir: Dir, after: Option<nat>) returns (k: nat)
    requires InScanOrder(list, dir)
    ensures k <= |list| && Candidates(list, dir, after) == list[k..]
    ensures forall i :: 0 <= i < k ==> !Beyond(dir, after, list[i].id)
    ensures forall i :: k <= i < |list| ==> Beyond(dir, after, list[i].id)
  {
    if list == [] {
      k := 0;
    } else if Beyond(dir, after, list[0].id) {
      k := 0;
      forall e | e in list ensures Beyond(dir, after, e.id) {
        var i :| 0 <= i < |list| && list[i] == e;
      }
      AllCandidates(list, dir, after);
    } else {
      k := CandidatesTail(list[1..], dir, after);
      k := k + 1;
      assert forall i :: 1 <= i < |list| ==> list[i] == list[1..][i - 1];
    }
  }

  /**
   * Where a batch stops: it consumes a prefix of the candidates, returns exactly its
   * passing rows, and either consumes everything or ends with a passing row it names.
   */
  lemma {:induction false} CollectStops(c: seq<Entry>, limit: nat, keep: Entry -> bool, acc: seq<Entry>, last: nat)
      returns (k: nat)
    requires limit >= 1 && |acc| <= limit
    requires |acc| >= 1 ==> acc[|acc| - 1].id == last
    ensures k <= |c|
    ensures var b := Collect(c, limit, keep, acc);
            && |b.rows| <= limit
            && b.rows == acc + Passing(c[..k], keep)
            && (b.last.None? ==> k == |c|)
            && (|b.rows| == limit && k > 0 ==> b.rows[limit - 1].id == c[k - 1].id)
            && (b.last.Some? ==> k < |c| && |b.rows| == limit && b.last.value == if k == 0 then last else c[k - 1].id)
    decreases |c|
  {
    if c == [] || |acc| >= limit {
      k := 0;
      assert c[..0] == [];
    } else {
      var more := if keep(c[0]) then acc + [c[0]] else acc;
      k := CollectStops(c[1..], limit, keep, more, if keep(c[0]) then c[0].id else last);
      assert c[..k + 1][1..] == c[1..][..k];
      k := k + 1;
    }
  }

  /** Which rows pass. */
  lemma {:induction false} PassingAre(list: seq<Entry>, keep: Entry -> bool)
    ensures forall e :: e in Passing(list, keep) <==> e in list && keep(e)
  {
    if list != [] {
      PassingAre(list[1..], keep);
      assert list == [list[0]] + list[1..];
    }
  }

  /** Which rows lie past the bound. */
  lemma {:induction false} CandidatesAre(list: seq<Entry>, dir: Dir, after: Option<nat>)
    ensures forall e :: e in Candidates(list, dir, after) <==> e in list && Beyond(dir, after, e.id)
  {
    if list != [] {
      CandidatesAre(list[1..], dir, after);
      assert list == [list[0]] + list[1..];
    }
  }

  /** They stay in scan order. */
  lemma {:induction false} PassingInOrder(list: seq<Entry>, dir: Dir, keep: Entry -> bool)
    requires InScanOrder(list, dir)
    ensures InScanOrder(Passing(list, keep), dir)
  {
    if list != [] {
      TailInOrder(list, dir);
      PassingInOrder(list[1..], dir, keep);
      PassingAre(list[1..], keep);
      OrderFront(list, dir, Passing(list[1..], keep));
      EmptyFront([], Passing(list[1..], keep));
    }
  }

  lemma TailInOrder(list: seq<Entry>, dir: Dir)
    requires list != [] && InScanOrder(list, dir)
    ensures InScanOrder(list[1..], dir)
  {
  }

  lemma OrderFront(list: seq<Entry>, dir: Dir, rest: seq<Entry>)
    requires list != [] && InScanOrder(list, dir) && InScanOrder(rest, dir) && forall e :: e in rest ==> e in list[1..]
    ensures InScanOrder([list[0]] + rest, dir)
  {
    forall j | 0 <= j < |rest| ensures Beyond(dir, Some(list[0].id), rest[j].id) {
      assert rest[j] in rest;
      var i :| 1 <= i < |list| && list[i] == rest[j];
    }
  }

  // ----- threading the resume bound -----

  /** All rows returned by calling the cursor again and again with the bound it gave. */
  ghost function Thread(list: seq<Entry>, dir: Dir, after: Option<nat>, limit: nat, keep: Entry -> bool): seq<Entry>
    requires limit >= 1 && InScanOrder(list, dir)
    decreases |Candidates(list, dir, after)|
  {
    var b := ScanBatch(list, dir, after, limit, keep);
    match b.last
    case None => b.rows
    case Some(_) =>
      BatchAdvances(list, dir, after, limit, keep);
      b.rows + Thread(list, dir, b.last, limit, keep)
  }

  /**
   * One batch: at most `limit` rows, the first that pass. It ends without a bound exactly when no
   * candidate is left behind it; the bound is the last row's id, and the rest starts there.
   */
  lemma BatchAdvances(list: seq<Entry>, dir: Dir, after: Option<nat>, limit: nat, keep: Entry -> bool)
    requires limit >= 1 && InScanOrder(list, dir)
    ensures var b, c := ScanBatch(list, dir, after, limit, keep), Candidates(list, dir, after);
            && |b.rows| <= limit
            && (b.last.None? ==> b.rows == Passing(c, keep) && (|b.rows| < limit || b.rows[limit - 1].id == c[|c| - 1].id))
            && (b.last.Some? ==>
                 var rest := Candidates(list, dir, b.last);
                 && |rest| < |c| && rest != [] && |b.rows| == limit && b.last.value == b.rows[limit - 1].id
                 && Passing(c, keep) == b.rows + Passing(rest, keep))
  {
    var k := BatchStops(Candidates(list, dir, after), limit, keep);
    if ScanBatch(list, dir, after, limit, keep).last.Some? { RestFrom(list, dir, after, k, keep); }
  }

  lemma BatchStops(c: seq<Entry>, limit: nat, keep: Entry -> bool) returns (k: nat)
    requires limit >= 1
    ensures k <= |c|
    ensures var b := Collect(c, limit, keep, []);
            && |b.rows| <= limit && b.rows == Passing(c[..k], keep)
            && (b.last.None? ==> b.rows == Passing(c, keep) && (|b.rows| < limit || b.rows[limit - 1].id == c[|c| - 1].id))
            && (b.last.Some? ==>
                 1 <= k < |c| && |b.rows| == limit && b.last.value == b.rows[limit - 1].id && b.last.value == c[k - 1].id)
  {
    k := CollectStops(c, limit, keep, [], 0);
    EmptyFront([], Passing(c[..k], keep));
    assert c[..|c|] == c && c[..0] == [];
  }

  lemma RestFrom(list: seq<Entry>, dir: Dir, after: Option<nat>, k: nat, keep: Entry -> bool)
    requires InScanOrder(list, dir) && 1 <= k < |Candidates(list, dir, after)|
    ensures var c := Candidates(list, dir, after);
            var rest := Candidates(list, dir, Some(c[k - 1].id));
            rest != [] && |rest| < |c| && Passing(c, keep) == Passing(c[..k], keep) + Passing(rest, keep)
  {
    Resume(list, dir, after, k);
    PassingCut(Candidates(list, dir, after), k, keep);
  }

  /** The candidates after row `i` start at row `i + 1`. */
  lemma TailAfter(list: seq<Entry>, dir: Dir, i: nat, to: nat)
    requires InScanOrder(list, dir) && i < |list| && to <= |list|
    requires forall j :: 0 <= j < to ==> !Beyond(dir, Some(list[i].id), list[j].id)
    requires forall j :: to <= j < |list| ==> Beyond(dir, Some(list[i].id), list[j].id)
    ensures to == i + 1
  {
    assert !Beyond(dir, Some(list[i].id), list[i].id);
    assert i + 1 < |list| ==> Beyond(dir, Some(list[i].id), list[i + 1].id);
  }

  /** Resuming after candidate `k - 1` leaves exactly the candidates from `k` on. */
  lemma Resume(list: seq<Entry>, dir: Dir, after: Option<nat>, k: nat)
    requires InScanOrder(list, dir) && 1 <= k <= |Candidates(list, dir, after)|
    ensures var c := Candidates(list, dir, after);
            Candidates(list, dir, Some(c[k - 1].id)) == c[k..]
  {
    var c := Candidates(list, dir, after);
    var from := CandidatesTail(list, dir, after);
    assert c == list[from..];
    var to := CandidatesTail(list, dir, Some(c[k - 1].id));
    TailAfter(list, dir, from + k - 1, to);
  }

  lemma PassingCut(c: seq<Entry>, k: nat, keep: Entry -> bool)
    requires k <= |c|
    ensures Passing(c, keep) == Passing(c[..k], keep) + Passing(c[k..], keep)
  {
    PassingConcat(c[..k], c[k..], keep);
    CutAt(c, k);
  }

  /**
   * Cursor tiling: threading the bound terminates and the batches together are exactly
   * the passing rows past the start, in scan order, each once.
   */
  lemma {:induction false} BatchesTile(
      list: seq<Entry>, dir: Dir, after: Option<nat>, limit: nat, keep: Entry -> bool)
    requires limit >= 1 && InScanOrder(list, dir)
    ensures Thread(list, dir, after, limit, keep) == Passing(Candidates(list, dir, after), keep)
    decreases |Candidates(list, dir, after)|
  {
    BatchAdvances(list, dir, after, limit, keep);
    var b := ScanBatch(list, dir, after, limit, keep);
    if b.last.Some? { BatchesTile(list, dir, b.last, limit, keep); }
  }

  // ----- index order -----

  /** What the entries of a list lead to, one after the other. */
  function Gather(list: seq<Entry>, fetch: Entry -> seq<Entry>): seq<Entry> {
    if list == [] then [] else fetch(list[0]) + Gather(list[1..], fetch)
  }

  lemma {:induction false} GatherConcat(a: seq<Entry>, b: seq<Entry>, fetch: Entry -> seq<Entry>)
    ensures Gather(a + b, fetch) == Gather(a, fetch) + Gather(b, fetch)
  {
    if a == [] {
      EmptyFront(a, b);
    } else {
      GatherConcat(a[1..], b, fetch);
      TailOfConcat(a, b);
    }
  }

  /**
   * A batch in index order: the index gives `limit` entries, each leads to a row that is kept
   * or to nothing, and the bound is the last entry whatever it led to.
   */
  function IndexBatch(list: seq<Entry>, dir: Dir, after: Option<nat>, limit: nat, fetch: Entry -> seq<Entry>): Batch {
    BatchOf(Candidates(list, dir, after), limit, fetch)
  }

  function BatchOf(c: seq<Entry>, limit: nat, fetch: Entry -> seq<Entry>): Batch {
    var taken := if |c| <= limit then c else c[..limit];
    Batch(Gather(taken, fetch), if |taken| < limit || taken == [] then None else Some(taken[|taken| - 1].id))
  }

  ghost function IndexThread(list: seq<Entry>, dir: Dir, after: Option<nat>, limit: nat, fetch: Entry -> seq<Entry>): seq<Entry>
    requires limit >= 1 && InScanOrder(list, dir)
    decreases |Candidates(list, dir, after)|
  {
    var b := IndexBatch(list, dir, after, limit, fetch);
    match b.last
    case None => b.rows
    case Some(_) =>
      IndexAdvances(list, dir, after, limit, fetch);
      b.rows + IndexThread(list, dir, b.last, limit, fetch)
  }

  /**
   * One batch in index order follows `limit` entries, or what there is; a bound comes exactly with
   * `limit` of them, and is the last one followed.
   */
  lemma IndexAdvances(list: seq<Entry>, dir: Dir, after: Option<nat>, limit: nat, fetch: Entry -> seq<Entry>)
    requires limit >= 1 && InScanOrder(list, dir)
    ensures var b, c := IndexBatch(list, dir, after, limit, fetch), Candidates(list, dir, after);
            && b.rows == Gather(if |c| < limit then c else c[..limit], fetch)
            && b.last == (if |c| < limit then None else Some(c[limit - 1].id))
            && (b.last.None? ==> b.rows == Gather(c, fetch))
            && (b.last.Some? ==>
                 var rest := Candidates(list, dir, b.last);
                 |rest| < |c| && Gather(c, fetch) == b.rows + Gather(rest, fetch))
  {
    var c := Candidates(list, dir, after);
    var b := IndexBatch(list, dir, after, limit, fetch);
    if b.last.Some? {
      Resume(list, dir, after, limit);
      CutAt(c, limit);
      GatherConcat(c[..limit], c[limit..], fetch);
    }
  }

  /** Tiling in index order: every entry past the start is followed exactly once, in order. */
  lemma {:induction false} IndexBatchesTile(
      list: seq<Entry>, dir: Dir, after: Option<nat>, limit: nat, fetch: Entry -> seq<Entry>)
    requires limit >= 1 && InScanOrder(list, dir)
    ensures IndexThread(list, dir, after, limit, fetch) == Gather(Candidates(list, dir, after), fetch)
    decreases |Candidates(list, dir, after)|
  {
    IndexAdvances(list, dir, after, limit, fetch);
    var b := IndexBatch(list, dir, after, limit, fetch);
    if b.last.Some? { IndexBatchesTile(list, dir, b.last, limit, fetch); }
  }
}
