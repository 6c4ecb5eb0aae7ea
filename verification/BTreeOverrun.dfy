/** When a leaf split leaves a half too long for its page: exactly when, for one step and for whole runs. */
module BTreeOverrun {
  import opened Seqs
  import opened Bytes
  import opened Overflow
  import opened LeafSplit
  import opened BTree
  import opened BTreeShape
  import opened BTreeLeaves
  import opened BTreePages
  import opened BTreeRuns

  // ----- one insertion -----

  /**
   * The new row does not go into a leaf with these rows: a page-filling one when it goes
   * strictly between two rows, any other when one half at half the row count is too long.
   */
  predicate Crowds(rows: seq<Entry>, e: Entry) {
    var pos, sizes := LowerBound(rows, e.id), Sizes(Insert(rows, e));
    if |e.data| > MAX_SINGLE_ROW then 0 < pos < |rows|
    else LeafSize(sizes) > PAGE_SIZE
         && (LeafSize(sizes[..|sizes| / 2]) > PAGE_SIZE || LeafSize(sizes[|sizes| / 2..]) > PAGE_SIZE)
  }

  lemma LeafOverrunsExactly(x: LeafRec, e: Entry, next: nat)
    requires Fits(Sizes(x.rows)) && AllKeyed(x.rows) && !Contains(x.rows, e.id)
    ensures LeafInsert(x, e, next).Overrun? <==> Crowds(x.rows, e)
  {
    var pos, stored := LowerBound(x.rows, e.id), StoredForm(e, next);
    var all := Insert(x.rows, stored);
    if !Fits(Sizes(all)) { SingleFits(all); }
    if |e.data| > MAX_SINGLE_ROW { OversizedOverruns(x, e, next); }
  }

  lemma OversizedOverruns(x: LeafRec, e: Entry, next: nat)
    requires Fits(Sizes(x.rows)) && AllKeyed(x.rows) && !Contains(x.rows, e.id) && |e.data| > MAX_SINGLE_ROW
    ensures LeafInsert(x, e, next).Overrun? <==> 0 < LowerBound(x.rows, e.id) < |x.rows|
  {
    var pos, sizes := LowerBound(x.rows, e.id), Sizes(x.rows);
    var all := Insert(x.rows, StoredForm(e, next));
    assert Sizes(all) == sizes[..pos] + [MAX_SINGLE_ROW] + sizes[pos..];
    InsertedSum(Sizes(all), pos);
    assert Sizes(all)[..pos] + Sizes(all)[pos + 1..] == sizes;
    if x.rows != [] {
      forall i | 0 <= i < |sizes| ensures sizes[i] > 0 { assert x.rows[i] in x.rows; }
      PageFillingRowSplits(sizes, pos);
      assert sizes[0] > 0 && Sum(sizes) == sizes[0] + Sum(sizes[1..]);
    }
  }

  lemma {:induction false} LeafForKnown(t: Tree, id: nat, h: nat, lo: nat, hi: nat, cap: nat, min: nat)
    requires Shaped(t) && Wf(t, h, lo, hi, cap, min) && lo <= id < hi
    ensures Fits(Sizes(LeafFor(t, id).rows))
    ensures forall e :: e in LeafFor(t, id).rows ==> e in TreeRows(t)
    decreases t
  {
    match t
    case Leaf(x) => assert [x][1..] == [] && TreeRows(t) == x.rows + Rows([x][1..]);
    case Branch(p, keys, kids) =>
      var i := ChildIndex(keys, id);
      RouteInRange(keys, lo, hi, id);
      KidRows(t, i);
      LeafForKnown(kids[i], id, h - 1, Bound(keys, lo, hi, i), Bound(keys, lo, hi, i + 1), cap, MinKeys(cap));
  }

  /** What the caller would look at: the leaf of the id, its rows and their sizes, and the free page numbers. */
  predicate Meets(s: State, op: Op)
    requires Shaped(s.t)
  {
    && op.Put?
    && (var rows := LeafFor(s.t, op.e.id).rows;
        !Contains(rows, op.e.id) && Crowds(rows, op.e))
    && s.next + OverflowCount(op.e) < MAX_PAGES
  }

  /** An operation overruns a page exactly when it is an insertion the leaf of its id cannot take. */
  lemma StepOverrunsExactly(s: State, op: Op, h: nat)
    requires Valid(s, h) && OpOk(op)
    ensures Step(s, op).1 == PageOverrun <==> Meets(s, op)
  {
    match op
    case Put(e) =>
      var x := LeafFor(s.t, e.id);
      var b, y, a := Route(s.t, e, s.next, h, 0, MAX_ID, ROW_BRANCH_KEYS, 1);
      LeafForKnown(s.t, e.id, h, 0, MAX_ID, ROW_BRANCH_KEYS, 1);
      LeafInsertRows(x, e, s.next);
      assert Local(TreeInsert(s.t, e, ROW_BRANCH_KEYS, s.next), LeafInsert(x, e, s.next), b, a);
      if !Contains(x.rows, e.id) { LeafOverrunsExactly(x, e, s.next); }
    case _ =>
  }

  /** A run overruns a page exactly when some operation of it meets a leaf that cannot take its row. */
  lemma {:induction false} RunOverrunsExactly(s: State, ops: seq<Op>, h: nat, m: map<nat, seq<Byte>>)
    requires Valid(s, h) && Agrees(s, m) && forall op :: op in ops ==> OpOk(op)
    ensures PageOverrun in Execute(s, ops).answers <==>
      exists k :: 0 <= k < |ops| && MeetsAt(s, ops, k)
    decreases |ops|
  {
    if ops != [] {
      var op, rest := ops[0], ops[1..];
      var (s1, a) := Step(s, op);
      assert OpOk(op);
      StepOverrunsExactly(s, op, h);
      assert MeetsAt(s, ops, 0) <==> Meets(s, op) by { assert ops[..0] == []; }
      forall k | 0 < k < |ops| ensures MeetsAt(s, ops, k) <==> !Stops(a) && MeetsAt(s1, rest, k - 1) {
        assert ops[..k][1..] == rest[..k - 1];
      }
      if !Stops(a) {
        var h1 := StepRefines(s, op, h, m);
        RunOverrunsExactly(s1, rest, h1, MapStep(m, op).0);
        if k :| 0 <= k < |rest| && MeetsAt(s1, rest, k) { assert MeetsAt(s, ops, k + 1); }
        assert PageOverrun in [a] + Execute(s1, rest).answers <==> PageOverrun in Execute(s1, rest).answers;
      }
    }
  }

  /** The run gets as far as operation `k`, and the leaf found there cannot take the row. */
  ghost predicate MeetsAt(s: State, ops: seq<Op>, k: nat)
    requires k < |ops|
  {
    var r := Execute(s, ops[..k]);
    !r.stopped && Shaped(r.s.t) && Meets(r.s, ops[k])
  }

  // ----- rows that never overrun a page -----

  predicate SmallRow(e: Entry) {
    MIN_ROW <= |e.data| <= 214
  }

  ghost predicate AllSmall(rows: seq<Entry>) {
    forall e :: e in rows ==> SmallRow(e)
  }

  lemma LeafNeverOverruns(x: LeafRec, e: Entry, next: nat)
    requires Fits(Sizes(x.rows)) && SmallRow(e) && AllSmall(x.rows)
    ensures !LeafInsert(x, e, next).Overrun?
  {
    var all, pos := Insert(x.rows, e), LowerBound(x.rows, e.id);
    if !Contains(x.rows, e.id) && !Fits(Sizes(all)) {
      SingleFits(all);
      assert Sizes(all)[..pos] + Sizes(all)[pos + 1..] == Sizes(x.rows);
      assert forall i :: 0 <= i < |all| ==> all[i] == e || all[i] in x.rows;
      MidpointFits(Sizes(all), pos);
    }
  }

  lemma KidRows(t: Tree, i: nat)
    requires t.Branch? && i < |t.kids|
    ensures forall e :: e in TreeRows(t.kids[i]) ==> e in TreeRows(t)
  {
    var l, k, r := Fringes(t.kids[..i]), Fringe(t.kids[i]), Fringes(t.kids[i + 1..]);
    FringesAround(t.kids, i);
    RowsConcat(l + k, r);
    RowsConcat(l, k);
  }

  lemma {:induction false} SmallNeverOverruns(t: Tree, e: Entry, next: nat, h: nat, lo: nat, hi: nat, cap: nat, min: nat)
    requires Shaped(t) && Wf(t, h, lo, hi, cap, min) && SmallRow(e) && AllSmall(TreeRows(t))
    ensures !TreeInsert(t, e, cap, next).Overrun?
    decreases t
  {
    match t
    case Leaf(x) =>
      assert [x][1..] == [] && TreeRows(t) == x.rows + Rows([x][1..]);
      LeafNeverOverruns(x, e, next);
    case Branch(p, keys, kids) =>
      var i := ChildIndex(keys, e.id);
      KidRows(t, i);
      SmallNeverOverruns(kids[i], e, next, h - 1, Bound(keys, lo, hi, i), Bound(keys, lo, hi, i + 1), cap, MinKeys(cap));
  }

  predicate SmallOp(op: Op) {
    OpOk(op) && (op.Put? ==> SmallRow(op.e))
  }

  lemma StepKeepsSmall(s: State, op: Op, h: nat)
    requires Valid(s, h) && AllSmall(TreeRows(s.t)) && SmallOp(op) && !Stops(Step(s, op).1)
    ensures AllSmall(TreeRows(Step(s, op).0.t))
  {
    match op
    case Put(e) => InsertRows(s, e, h);
    case Drop(id) => DeleteRefines(s.t, id, h, 0, MAX_ID, ROW_BRANCH_KEYS, 1);
    case _ =>
  }

  /** With rows of 10 to 214 bytes a run can only stop because the file is full. */
  lemma {:induction false} SmallRunsNeverOverrun(s: State, ops: seq<Op>, h: nat, m: map<nat, seq<Byte>>)
    requires Valid(s, h) && Agrees(s, m) && AllSmall(TreeRows(s.t))
    requires forall op :: op in ops ==> SmallOp(op)
    ensures PageOverrun !in Execute(s, ops).answers
    decreases |ops|
  {
    if ops != [] {
      var op := ops[0];
      var (s1, a) := Step(s, op);
      assert SmallOp(op);
      if op.Put? {
        SmallNeverOverruns(s.t, op.e, s.next, h, 0, MAX_ID, ROW_BRANCH_KEYS, 1);
      }
      if !Stops(a) {
        var h1 := StepRefines(s, op, h, m);
        StepKeepsSmall(s, op, h);
        SmallRunsNeverOverrun(s1, ops[1..], h1, MapStep(m, op).0);
      }
    }
  }

  // ----- 214 bytes is the limit for runs, too -----

  predicate SizedOp(op: Op, high: nat) {
    OpOk(op) && (op.Put? ==> MIN_ROW <= |op.e.data| <= high)
  }

  /** No run from a new tree with rows of at least 10 bytes and at most `high` overruns a page. */
  ghost predicate RunsNeverOverrun(high: nat) {
    forall page, ops: seq<Op> :: 1 <= page < MAX_PAGES && (forall op :: op in ops ==> SizedOp(op, high)) ==>
      PageOverrun !in Execute(Create(page), ops).answers
  }

  /** A row of `size` bytes under this id, zero after the id. */
  function PlainRow(id: nat, size: nat): Entry
    requires id < 256 && size >= MIN_ROW
  {
    Entry(id, Le(id, 8) + seq(size - 8, _ => 0))
  }

  lemma PlainRowOk(id: nat, size: nat)
    requires id < 256 && MIN_ROW <= size <= MAX_SINGLE_ROW
    ensures RowOk(PlainRow(id, size)) && |PlainRow(id, size).data| == size
  {
    var d := PlainRow(id, size).data;
    PowValues();
    LeRoundTrip(id, 8);
    assert d[..8] == Le(id, 8);
    LowByteOnly(id, 8);
    assert d[size - OVERFLOW_TRAILER_SIZE..][..2][1] == d[size - 9] == 0;
  }

  lemma {:induction false} LowByteOnly(id: nat, k: nat)
    requires id < 256
    ensures forall i :: 1 <= i < k ==> Le(id, k)[i] == 0
  {
    if k > 1 { LowByteOnly(id / 256, k - 1); assert Le(0, k - 1)[0] == 0; }
  }

  function Puts(rows: seq<Entry>): (ops: seq<Op>)
    ensures |ops| == |rows|
  {
    seq(|rows|, i requires 0 <= i < |rows| => Put(rows[i]))
  }

  /** The one-leaf tree holding the first `k` rows. */
  function Loaded(page: nat, rows: seq<Entry>, k: nat): State
    requires k <= |rows|
  {
    State(Leaf(LeafRec(page, rows[..k])), page + 1, map[])
  }

  lemma AppendsToLeaf(rows: seq<Entry>, k: nat)
    requires Sorted(rows) && k < |rows|
    ensures !Contains(rows[..k], rows[k].id) && Insert(rows[..k], rows[k]) == rows[..k + 1]
    ensures Sizes(rows[..k]) == Sizes(rows)[..k]
  {
    BoundUnique(rows[..k], rows[k].id, k);
  }

  lemma LoadStep(page: nat, rows: seq<Entry>, k: nat)
    requires 1 <= page < MAX_PAGES - 1 && Sorted(rows) && k + 1 < |rows| && |rows[k].data| <= MAX_SINGLE_ROW
    requires Fits(Sizes(rows)[..|rows| - 1])
    ensures Step(Loaded(page, rows, k), Put(rows[k])) == (Loaded(page, rows, k + 1), Inserted)
  {
    AppendsToLeaf(rows, k);
    CutMonotone(Sizes(rows), k + 1, |rows| - 1);
    AppendsToLeaf(rows, k + 1);
  }

  lemma LastOverruns(page: nat, rows: seq<Entry>, k: nat)
    requires 1 <= page < MAX_PAGES - 1 && Sorted(rows) && k + 1 == |rows| && |rows[k].data| <= MAX_SINGLE_ROW
    requires !Fits(Sizes(rows)) && !ValidSplit(Sizes(rows), |rows| / 2)
    ensures Step(Loaded(page, rows, k), Put(rows[k])).1 == PageOverrun
  {
    AppendsToLeaf(rows, k);
    assert rows[..k + 1] == rows;
    SingleFits(rows);
  }

  /** Rows loaded in order into a new tree stay on its one leaf while they fit, and the next one overruns it. */
  lemma {:induction false} LoadingOverruns(page: nat, rows: seq<Entry>, k: nat)
    requires 1 <= page < MAX_PAGES - 1 && Sorted(rows) && k < |rows|
    requires forall i :: 0 <= i < |rows| ==> |rows[i].data| <= MAX_SINGLE_ROW
    requires Fits(Sizes(rows)[..|rows| - 1]) && !Fits(Sizes(rows)) && !ValidSplit(Sizes(rows), |rows| / 2)
    ensures PageOverrun in Execute(Loaded(page, rows, k), Puts(rows[k..])).answers
    decreases |rows| - k
  {
    var s, ops := Loaded(page, rows, k), Puts(rows[k..]);
    assert ops[0] == Put(rows[k]) && ops[1..] == Puts(rows[k + 1..]);
    if k + 1 < |rows| {
      LoadStep(page, rows, k);
      LoadingOverruns(page, rows, k + 1);
      assert PageOverrun in [Inserted] + Execute(Loaded(page, rows, k + 1), ops[1..]).answers;
    } else {
      LastOverruns(page, rows, k);
    }
  }

  /** The tight leaf, loaded row by row, and the row of 215 bytes that breaks it. */
  function TightRows(): (rows: seq<Entry>)
    ensures |rows| == 37
  {
    var sizes := FullLeft() + FullRight() + [215];
    seq(37, i requires 0 <= i < 37 => PlainRow(i, sizes[i]))
  }

  lemma TightRowsOverrun(page: nat)
    requires 1 <= page < MAX_PAGES - 1
    ensures PageOverrun in Execute(Create(page), Puts(TightRows())).answers
    ensures forall op :: op in Puts(TightRows()) ==> SizedOp(op, 215)
  {
    var rows, sizes := TightRows(), FullLeft() + FullRight() + [215];
    forall i | 0 <= i < 37 ensures RowOk(rows[i]) && |rows[i].data| == sizes[i] { PlainRowOk(i, sizes[i]); }
    TightLeafBreaks();
    assert Sizes(rows) == sizes;
    assert sizes[..36] + sizes[37..] == sizes[..36];
    TightTotal();
    LoadingOverruns(page, rows, 0);
    assert Loaded(page, rows, 0) == Create(page) && rows[0..] == rows;
  }

  lemma TightTotal()
    ensures !Fits(FullLeft() + FullRight() + [215])
  {
    FullSums();
    SumOne(215);
    SumConcat(FullLeft() + FullRight(), [215]);
  }

  /** The size limit up to which no run overruns a page is exactly 214 bytes. */
  lemma RunsSafeUpTo214(high: nat)
    ensures RunsNeverOverrun(high) <==> high <= 214
  {
    if high <= 214 {
      forall page, ops: seq<Op> | 1 <= page < MAX_PAGES && forall op :: op in ops ==> SizedOp(op, high)
        ensures PageOverrun !in Execute(Create(page), ops).answers
      {
        CreateValid(page);
        assert Rows([LeafRec(page, [])]) == [] + Rows([]);
        SmallRunsNeverOverrun(Create(page), ops, 0, map[]);
      }
    } else {
      TightRowsOverrun(1);
    }
  }
}
