/** Whole runs of operations carried out on pages: they answer as the tree, and so as the map. */
module PagedRuns {
  import opened Seqs
  import opened Bytes
  import opened Overflow
  import opened BTree
  import opened BTreeLeaves
  import opened BTreePages
  import opened BTreeStored
  import opened BTreeRuns
  import opened BTreeWriter
  import opened BTreeReader
  import opened Store

  /** The pages hold the tree of `s` and its overflow pages, and the same page number is free next. */
  ghost predicate Depicts(v: Pages, root: nat, next: nat, s: State) {
    && root == Root(s.t) && next == s.next
    && Holds(v, s.t) && Linked(v, LeafPages(Fringe(s.t)))
    && Staged(v, s.over)
  }

  /** Everything known between two operations of a run. */
  ghost predicate Between(v: Pages, root: nat, next: nat, s: State, h: nat, m: map<nat, seq<Byte>>) {
    Depicts(v, root, next, s) && Valid(s, h) && Agrees(s, m)
  }

  // ----- the pages of the tree and the overflow pages are different pages -----

  lemma {:induction false} NodePages(v: Pages, t: Tree, q: nat)
    requires Holds(v, t) && Uses(t, q) > 0
    ensures q in v && (v[q].LeafPage? || v[q].BranchPage?)
    decreases t
  {
    if t.Branch? && q != t.page {
      var i := SomeKidUses(t.kids, q);
      NodePages(v, t.kids[i], q);
    }
  }

  /** Overflow pages survive what an operation does to the tree. */
  lemma OverflowKept(v: Pages, w: Pages, t: Tree, over: map<nat, OverPage>)
    requires Holds(v, t) && Staged(v, over) && Frame(v, w, t)
    ensures Staged(w, over)
  {
    forall p | p in over ensures p in w && w[p] == OverflowPage(over[p]) {
      if Uses(t, p) > 0 { NodePages(v, t, p); }
    }
  }

  lemma OverAgrees(v: Pages, s: State)
    requires Staged(v, s.over)
    ensures forall p :: p in s.over ==> p in Over(v) && Over(v)[p] == s.over[p]
  {
  }

  /** The store a reader needs: rows that read from the known overflow pages read from the file. */
  lemma DepictedIsStored(v: Pages, root: nat, next: nat, s: State, h: nat)
    requires Depicts(v, root, next, s) && Valid(s, h)
    ensures Stored(v, root, s.t, h, next) && h <= 5
    ensures Whole(TreeRows(s.t), Over(v)) == Whole(TreeRows(s.t), s.over)
    ensures forall id :: Lookup(TreeRows(s.t), Over(v), id) == Lookup(TreeRows(s.t), s.over, id)
  {
    var rows := TreeRows(s.t);
    DepthBound(s.t, h, MAX_ID, ROW_BRANCH_KEYS, s.next);
    OverAgrees(v, s);
    forall i | 0 <= i < |rows| ensures Reassemble(rows[i].data, Over(v)) == Reassemble(rows[i].data, s.over) {
      ReassembleMonotone(rows[i].data, s.over, Over(v));
    }
    forall id ensures Lookup(rows, Over(v), id) == Lookup(rows, s.over, id) { LookupMonotone(rows, s.over, Over(v), id); }
  }

  // ----- one operation -----

  /** What a writer's result is as an answer. */
  function InsertAnswer(r: InsertResult): Answer {
    match r
    case Rejected(DuplicateKeyError) => DuplicateKey
    case Rejected(AllocationError) => PageCountOverflow
    case Rejected(_) => PageOverrun
    case _ => Inserted
  }

  lemma InsertAnswers(at: Site, s: State, r: InsertResult, w: Pages, next: nat, root: nat, root': nat)
    requires Shaped(s.t) && at.n == s.next <= MAX_PAGES
    requires RootTried(at, s.t, r, RootInsert(s.t, at.e, ROW_BRANCH_KEYS, s.next), w, next, root, root')
    ensures InsertAnswer(r) == DoInsert(s, at.e).1
  {
    var o := RootInsert(s.t, at.e, ROW_BRANCH_KEYS, s.next);
    assert !o.Split?;
  }

  lemma InsertDepicts(at: Site, s: State, r: InsertResult, w: Pages, next: nat, root: nat, root': nat)
    requires Shaped(s.t) && Depicts(at.v, root, at.n, s) && s.next <= MAX_PAGES
    requires RootTried(at, s.t, r, RootInsert(s.t, at.e, ROW_BRANCH_KEYS, s.next), w, next, root, root')
    ensures InsertAnswer(r) == DoInsert(s, at.e).1
    ensures !Stops(InsertAnswer(r)) ==> Depicts(w, root', next, DoInsert(s, at.e).0)
  {
    InsertAnswers(at, s, r, w, next, root, root');
    if r == FitResult {
      OverflowKept(at.v, w, s.t, s.over);
      StagedBoth(w, s.over, RowChain(at.e, s.next));
    }
  }

  lemma StagedBoth(w: Pages, a: map<nat, OverPage>, b: map<nat, OverPage>)
    requires Staged(w, a) && Staged(w, b)
    ensures Staged(w, a + b)
  {
  }

  lemma DeleteDepicts(v: Pages, root: nat, s: State, id: nat, h: nat, m: map<nat, seq<Byte>>, w: Pages)
    requires Between(v, root, s.next, s, h, m) && id < MAX_ID
    requires Holds(w, TreeDelete(s.t, id)) && Linked(w, LeafPages(Fringe(TreeDelete(s.t, id)))) && Frame(v, w, s.t)
    requires root == Root(TreeDelete(s.t, id))
    ensures Depicts(w, root, s.next, s.(t := TreeDelete(s.t, id)))
  {
    OverflowKept(v, w, s.t, s.over);
  }

  /** Pages handed out to someone else. */
  method TakePages(guard: WriteGuard, n: nat) returns (ok: bool)
    requires guard.Valid() && guard.Next() <= MAX_PAGES
    modifies guard
    ensures guard.Valid() && ok == (old(guard.Next()) + n <= MAX_PAGES)
    ensures ok ==> guard.Next() == old(guard.Next()) + n && Keeps(old(guard.View()), guard.View())
  {
    ghost var v, from := guard.View(), guard.Next();
    for k := 0 to n
      invariant guard.Valid() && guard.Next() == from + k <= MAX_PAGES && Keeps(v, guard.View())
    {
      var page := guard.AllocatePage();
      if page.None? {
        return false;
      }
    }
    return true;
  }

  /** No page changed, some may have been added. */
  ghost predicate Keeps(v: Pages, w: Pages) {
    forall p :: p in v ==> p in w && w[p] == v[p]
  }

  /** One operation on the pages. */
  method Operate(tree: BTreeWriter, op: Op, ghost s: State, ghost h: nat, ghost m: map<nat, seq<Byte>>) returns (a: Answer)
    requires tree.guard.Valid() && OpOk(op)
    requires Between(tree.guard.View(), tree.root, tree.guard.Next(), s, h, m)
    modifies tree, tree.guard
    ensures tree.guard.Valid() && a == Step(s, op).1
    ensures !Stops(a) ==> Depicts(tree.guard.View(), tree.root, tree.guard.Next(), Step(s, op).0)
  {
    ghost var v := tree.guard.View();
    DepictedIsStored(v, tree.root, s.next, s, h);
    match op
    case Put(e) =>
      var r := tree.InsertRoot(e, ROW_BRANCH_KEYS, s.t, h, MAX_ID);
      InsertDepicts(Site(e, s.next, v, [], []), s, r, tree.guard.View(), tree.guard.Next(), old(tree.root), tree.root);
      a := InsertAnswer(r);
    case Drop(id) =>
      var existed := tree.DeleteRoot(id, s.t, h, MAX_ID, ROW_BRANCH_KEYS);
      DeleteDepicts(v, tree.root, s, id, h, m, tree.guard.View());
      a := Deleted(existed);
    case Get(id) =>
      var reader := new BTreeReader(tree.guard, tree.root);
      a := reader.Search(id, s.t, h, Over(v));
      SearchRefines(s.t, id, h, 0, MAX_ID, ROW_BRANCH_KEYS, 1);
    case Elsewhere(n) =>
      var ok := TakePages(tree.guard, n);
      if ok { HoldsFrame(v, tree.guard.View(), s.t); }
      a := if ok then Ready else PageCountOverflow;
  }

  // ----- whole runs -----

  /** The first `k` operations gave `answers` and led to `end` and the map `now`. */
  ghost predicate CameTo(s: State, ops: seq<Op>, m: map<nat, seq<Byte>>, k: nat, answers: seq<Answer>, end: State, now: map<nat, seq<Byte>>)
    requires k <= |ops|
  {
    var r := Execute(end, ops[k..]);
    Execute(s, ops) == r.(answers := answers + r.answers) && MapExecute(m, ops).0 == MapExecute(now, ops[k..]).0
  }

  lemma FirstStep(s: State, ops: seq<Op>)
    requires ops != [] && Shaped(s.t)
    ensures var (s1, a) := Step(s, ops[0]);
            var r := Execute(s1, ops[1..]);
            Execute(s, ops) == if Stops(a) then Run(s, [a], true) else Run(r.s, [a] + r.answers, r.stopped)
  {
  }

  lemma StepOn(s: State, ops: seq<Op>, m: map<nat, seq<Byte>>, k: nat, answers: seq<Answer>, end: State, now: map<nat, seq<Byte>>)
    requires k < |ops| && CameTo(s, ops, m, k, answers, end, now) && Shaped(end.t)
    ensures var (end', a) := Step(end, ops[k]);
            if Stops(a) then Execute(s, ops).stopped && Execute(s, ops).answers == answers + [a]
            else CameTo(s, ops, m, k + 1, answers + [a], end', MapStep(now, ops[k]).0)
  {
    var rest := ops[k..];
    assert rest[0] == ops[k] && rest[1..] == ops[k + 1..];
    FirstStep(end, rest);
    var a := Step(end, ops[k]).1;
    Assoc(answers, [a], Execute(Step(end, ops[k]).0, ops[k + 1..]).answers);
  }

  /** The answers are those of the map, up to an operation that stopped the run if one did. */
  predicate AnsweredAs(m: map<nat, seq<Byte>>, ops: seq<Op>, answers: seq<Answer>) {
    var n := |answers| - 1;
    if n >= 0 && Stops(answers[n]) then n < |ops| && answers[..n] == MapExecute(m, ops[..n]).1
    else answers == MapExecute(m, ops).1
  }

  lemma AnswersOfRun(s: State, ops: seq<Op>, h: nat, m: map<nat, seq<Byte>>)
    requires Valid(s, h) && Agrees(s, m) && forall op :: op in ops ==> OpOk(op)
    ensures AnsweredAs(m, ops, Execute(s, ops).answers)
  {
    var h' := RunRefinesMap(s, ops, h, m);
    MapNeverStops(m, ops);
  }

  lemma {:induction false} MapNeverStops(m: map<nat, seq<Byte>>, ops: seq<Op>)
    ensures forall a :: a in MapExecute(m, ops).1 ==> !Stops(a)
    decreases |ops|
  {
    if ops != [] { MapNeverStops(MapStep(m, ops[0]).0, ops[1..]); }
  }

  /**
   * A run on pages answers exactly as the finite map, up to the operation that stops it if any
   * does, and the pages then hold a tree with exactly the rows of the map.
   */
  method RunOnPages(tree: BTreeWriter, ops: seq<Op>, ghost s: State, ghost h: nat, ghost m: map<nat, seq<Byte>>)
      returns (answers: seq<Answer>, ghost end: State, ghost h': nat)
    requires tree.guard.Valid() && forall op :: op in ops ==> OpOk(op)
    requires Between(tree.guard.View(), tree.root, tree.guard.Next(), s, h, m)
    modifies tree, tree.guard
    ensures tree.guard.Valid() && answers == Execute(s, ops).answers
    ensures AnsweredAs(m, ops, answers)
    ensures !Execute(s, ops).stopped ==>
      Between(tree.guard.View(), tree.root, tree.guard.Next(), end, h', MapExecute(m, ops).0)
  {
    answers, end, h' := [], s, h;
    ghost var now := m;
    assert ops[0..] == ops;
    AnswersOfRun(s, ops, h, m);
    for k := 0 to |ops|
      invariant tree.guard.Valid() && Between(tree.guard.View(), tree.root, tree.guard.Next(), end, h', now)
      invariant CameTo(s, ops, m, k, answers, end, now)
    {
      StepOn(s, ops, m, k, answers, end, now);
      var a := Operate(tree, ops[k], end, h', now);
      answers := answers + [a];
      if Stops(a) {
        return;
      }
      h' := StepRefines(end, ops[k], h', now);
      end, now := Step(end, ops[k]).0, MapStep(now, ops[k]).0;
    }
    assert ops[|ops|..] == [];
  }

  /** A new tree holds the empty map. */
  method NewTree(guard: WriteGuard) returns (tree: BTreeWriter, ok: bool)
    requires guard.Valid() && 0 < guard.Next()
    modifies guard
    ensures guard.Valid() && fresh(tree) && tree.guard == guard
    ensures ok == (old(guard.Next()) < MAX_PAGES)
    ensures ok ==> Between(guard.View(), tree.root, guard.Next(), Create(old(guard.Next())), 0, map[])
  {
    var page := BTreeWriter.Create(guard);
    ok := page.Some?;
    tree := new BTreeWriter(guard, if ok then page.value else 0);
    if ok {
      CreateValid(page.value);
      assert LeafPages(Fringe(Leaf(LeafRec(page.value, [])))) == [page.value];
    }
  }

  /** A scan lists exactly the map, in id order. */
  lemma ScanIsMap(s: State, h: nat, m: map<nat, seq<Byte>>)
    requires Valid(s, h) && Agrees(s, m) && forall id :: id in m ==> 0 <= id < MAX_ID
    ensures var w := Whole(TreeRows(s.t), s.over);
            Sorted(w) && forall e :: e in w <==> e.id in m && m[e.id] == e.data
  {
    var rows, w := TreeRows(s.t), Whole(TreeRows(s.t), s.over);
    FringeSorted(s.t, h, 0, MAX_ID, ROW_BRANCH_KEYS, 1);
    forall i | 0 <= i < |rows| ensures w[i].id == rows[i].id && w[i].id in m && m[w[i].id] == w[i].data {
      var id := rows[i].id;
      BoundUnique(rows, id, i);
      assert Lookup(rows, s.over, id) == Expect(m, id);
    }
    forall e: Entry | e.id in m && m[e.id] == e.data ensures e in w {
      assert Lookup(rows, s.over, e.id) == Expect(m, e.id);
      var i := LowerBound(rows, e.id);
      assert w[i] == e;
    }
  }

  /** Scanning the pages after a run gives the rows of the map in id order. */
  method ScanTree(guard: WriteGuard, root: nat, ghost s: State, ghost h: nat, ghost m: map<nat, seq<Byte>>)
      returns (r: ScanOutcome<seq<Entry>>)
    requires guard.Valid() && Between(guard.View(), root, guard.Next(), s, h, m)
    requires forall id :: id in m ==> 0 <= id < MAX_ID
    ensures r.Done? && Sorted(r.result) && forall e :: e in r.result <==> e.id in m && m[e.id] == e.data
  {
    DepictedIsStored(guard.View(), root, guard.Next(), s, h);
    ScanIsMap(s, h, m);
    var reader := new BTreeReader(guard, root);
    r := reader.ScanAll(s.t, h, Over(guard.View()));
  }
}
