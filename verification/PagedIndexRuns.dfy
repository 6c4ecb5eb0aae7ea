/** Whole runs of index operations carried out on pages: they answer as the set of keys, and scans read it. */
module PagedIndexRuns {
  import opened Seqs
  import opened Bytes
  import opened Overflow
  import opened BTree
  import opened BTreeLeaves
  import opened BTreePages
  import opened BTreeStored
  import opened BTreeRuns
  import opened BTreeWriter
  import opened BTreeReader
  import opened Store
  import opened IndexKey
  import opened IndexTree
  import opened IndexReader
  import opened IndexFind
  import opened PagedRuns

  /** Everything known between two operations of a run: the pages hold the tree, the tree the set. */
  ghost predicate KeptIndex(v: Pages, root: nat, next: nat, s: IndexState, h: nat, m: set<seq<Byte>>) {
    && root == Root(s.t) && next == s.next && Holds(v, s.t) && Linked(v, LeafPages(Fringe(s.t)))
    && IndexValid(s, h) && SameKeys(s, m)
  }

  lemma KeptIsStored(v: Pages, root: nat, next: nat, s: IndexState, h: nat, m: set<seq<Byte>>)
    requires KeptIndex(v, root, next, s, h, m)
    ensures IndexStored(v, root, s.t, h, next) && KeysSorted(Keys(TreeRows(s.t)))
  {
    IndexListed(s, h);
  }

  // ----- one operation -----

  /** Insertion of a key that is absent; false when the file has no page left for it. */
  method AddKey(tree: BTreeWriter, key: seq<Byte>, ghost s: IndexState, ghost h: nat, ghost m: set<seq<Byte>>) returns (ok: bool)
    requires tree.guard.Valid() && KeyOk(key) && key !in m
    requires KeptIndex(tree.guard.View(), tree.root, tree.guard.Next(), s, h, m)
    modifies tree, tree.guard
    ensures tree.guard.Valid() && Apply(s, Add(key)).1 == if ok then Added else FileFull
    ensures ok ==> Laid(tree.guard.View(), tree.root, tree.guard.Next(), Apply(s, Add(key)).0)
  {
    KeptIsStored(tree.guard.View(), tree.root, s.next, s, h, m);
    AddNeverBreaks(s, key, h);
    ghost var at := Site(KeyEntry(key), s.next, tree.guard.View(), [], []);
    var r := tree.InsertRoot(KeyEntry(key), INDEX_BRANCH_KEYS, s.t, h, RANKS);
    AddedPages(at, s, key, r, tree.guard.View(), tree.guard.Next(), old(tree.root), tree.root);
    return r == FitResult;
  }

  /** Deletion of a key, present or not. */
  method TakeKey(tree: BTreeWriter, key: seq<Byte>, ghost s: IndexState, ghost h: nat, ghost m: set<seq<Byte>>) returns (existed: bool)
    requires tree.guard.Valid() && KeyOk(key)
    requires KeptIndex(tree.guard.View(), tree.root, tree.guard.Next(), s, h, m)
    modifies tree, tree.guard
    ensures tree.guard.Valid() && Apply(s, Take(key)).1 == Taken(existed)
    ensures Laid(tree.guard.View(), tree.root, tree.guard.Next(), Apply(s, Take(key)).0)
  {
    KeptIsStored(tree.guard.View(), tree.root, s.next, s, h, m);
    RankBound(key, BRANCH_KEY_MAX);
    existed := tree.DeleteRoot(Rank(key), s.t, h, RANKS, INDEX_BRANCH_KEYS);
  }

  /** The pages hold the tree of `s`, its leaves linked. */
  ghost predicate Laid(v: Pages, root: nat, next: nat, s: IndexState) {
    root == Root(s.t) && next == s.next && Holds(v, s.t) && Linked(v, LeafPages(Fringe(s.t)))
  }

  lemma AddedPages(at: Site, s: IndexState, key: seq<Byte>, r: InsertResult, w: Pages, next: nat, root: nat, root': nat)
    requires Shaped(s.t) && KeyOk(key) && at.e == KeyEntry(key) && at.n == s.next
    requires RootInsert(s.t, KeyEntry(key), INDEX_BRANCH_KEYS, s.next).Fit?
    requires RootTried(at, s.t, r, RootInsert(s.t, KeyEntry(key), INDEX_BRANCH_KEYS, s.next), w, next, root, root')
    ensures Apply(s, Add(key)).1 == if r == FitResult then Added else FileFull
    ensures r == FitResult ==> Laid(w, root', next, Apply(s, Add(key)).0)
  {
  }

  /** Whether a key is in the tree: the leaf it belongs to, searched. */
  method HasKey(tree: BTreeWriter, key: seq<Byte>, ghost s: IndexState, ghost h: nat, ghost m: set<seq<Byte>>) returns (found: bool)
    requires tree.guard.Valid() && KeyOk(key)
    requires KeptIndex(tree.guard.View(), tree.root, tree.guard.Next(), s, h, m)
    ensures found == TreeSearch(s.t, Rank(key)).Found?
  {
    KeptIsStored(tree.guard.View(), tree.root, s.next, s, h, m);
    RankBound(key, BRANCH_KEY_MAX);
    var reader := new IndexTreeReader(tree.guard, tree.root);
    var page := reader.Descend(Rank(key), s.t, h, RANKS);
    LeafHeld(tree.guard.View(), s.t, Rank(key), h);
    var leaf := tree.guard.ReadPage(page.value);
    var pos;
    pos, found := FindInsertionPoint(leaf.value.rows, Rank(key));
  }

  lemma LeafHeld(v: Pages, t: Tree, id: nat, h: nat)
    requires Shaped(t) && Wf(t, h, 0, RANKS, INDEX_BRANCH_KEYS, 1) && Holds(v, t) && id < RANKS
    ensures var x := LeafFor(t, id); x.page in v && v[x.page].LeafPage? && v[x.page].rows == x.rows && Sorted(x.rows)
    ensures TreeSearch(t, id) == RowsSearch(LeafFor(t, id).rows, id)
  {
    var before, x, after := Route(t, Entry(id, []), 0, h, 0, RANKS, INDEX_BRANCH_KEYS, 1);
    FringeHeld(v, t);
    assert Fringe(t)[|before|] == x;
    FringeSorted(t, h, 0, RANKS, INDEX_BRANCH_KEYS, 1);
    LeafOfSorted(before, x, after);
  }

  lemma LeafOfSorted(before: seq<LeafRec>, x: LeafRec, after: seq<LeafRec>)
    requires Sorted(Rows(before + [x] + after))
    ensures Sorted(x.rows)
  {
    RowsConcat(before + [x], after);
    RowsConcat(before, [x]);
    assert Rows([x]) == x.rows + Rows([]);
    var all := Rows(before + [x] + after);
    assert forall i :: 0 <= i < |x.rows| ==> all[|Rows(before)| + i] == x.rows[i];
  }

  /** One operation on the pages; none when the file has no page left. */
  method OperateIndex(tree: BTreeWriter, op: IndexOp, ghost s: IndexState, ghost h: nat, ghost m: set<seq<Byte>>)
      returns (a: Option<IndexAnswer>)
    requires tree.guard.Valid() && OpKeyOk(op) && (op.Add? ==> op.key !in m)
    requires KeptIndex(tree.guard.View(), tree.root, tree.guard.Next(), s, h, m)
    modifies tree, tree.guard
    ensures tree.guard.Valid()
    ensures a == if Apply(s, op).1 == FileFull then None else Some(Apply(s, op).1)
    ensures a.Some? ==> Laid(tree.guard.View(), tree.root, tree.guard.Next(), Apply(s, op).0)
  {
    ghost var v := tree.guard.View();
    match op
    case Add(key) =>
      var ok := AddKey(tree, key, s, h, m);
      a := if ok then Some(Added) else None;
    case Take(key) =>
      var existed := TakeKey(tree, key, s, h, m);
      a := Some(Taken(existed));
    case Has(key) =>
      var found := HasKey(tree, key, s, h, m);
      a := Some(Present(found));
    case OtherPages(n) =>
      var ok := TakePages(tree.guard, n);
      if ok { HoldsFrame(v, tree.guard.View(), s.t); }
      a := if ok then Some(Allocated) else None;
  }

  // ----- whole runs -----

  /** The first `k` operations gave `answers` and led from the set `m` to `now`. */
  ghost predicate CameBy(m: set<seq<Byte>>, ops: seq<IndexOp>, k: nat, answers: seq<IndexAnswer>, now: set<seq<Byte>>)
    requires k <= |ops|
  {
    ApplyAllSet(m, ops[..k]) == (now, answers) && FreshAdds(now, ops[k..])
  }

  lemma {:induction false} SetStepOn(m: set<seq<Byte>>, ops: seq<IndexOp>, k: nat)
    requires k < |ops|
    ensures var (now, answers) := ApplyAllSet(m, ops[..k]);
            var (next, a) := ApplySet(now, ops[k]);
            ApplyAllSet(m, ops[..k + 1]) == (next, answers + [a])
    decreases k
  {
    if k == 0 {
      assert ops[..1] == [ops[0]] && [ops[0]][1..] == [] && ops[..0] == [];
      var (next, a) := ApplySet(m, ops[0]);
      assert ApplyAllSet(m, ops[..0]) == (m, []) && ApplyAllSet(next, []) == (next, []);
      assert ApplyAllSet(m, [ops[0]]) == (next, [a] + []);
      assert [a] + [] == [] + [a] == [a];
    } else {
      var m1 := ApplySet(m, ops[0]).0;
      SetStepOn(m1, ops[1..], k - 1);
      assert ops[..k][1..] == ops[1..][..k - 1] && ops[..k + 1][1..] == ops[1..][..k] && ops[k] == ops[1..][k - 1];
      Assoc([ApplySet(m, ops[0]).1], ApplyAllSet(m1, ops[1..][..k - 1]).1, [ApplySet(ApplyAllSet(m, ops[..k]).0, ops[k]).1]);
    }
  }

  lemma CameOn(m: set<seq<Byte>>, ops: seq<IndexOp>, k: nat, answers: seq<IndexAnswer>, now: set<seq<Byte>>)
    requires k < |ops| && CameBy(m, ops, k, answers, now)
    ensures var (next, a) := ApplySet(now, ops[k]); CameBy(m, ops, k + 1, answers + [a], next)
    ensures ops[k].Add? ==> ops[k].key !in now
  {
    SetStepOn(m, ops, k);
    assert ops[k..][0] == ops[k] && ops[k..][1..] == ops[k + 1..];
  }

  /**
   * A run of fresh insertions, deletions and lookups on pages answers exactly as the set of keys,
   * until the file is full if it ever is, and otherwise leaves a stored tree of exactly the set.
   */
  method RunIndexOnPages(tree: BTreeWriter, ops: seq<IndexOp>, ghost s: IndexState, ghost h: nat, ghost m: set<seq<Byte>>)
      returns (answers: seq<IndexAnswer>, full: bool, ghost end: IndexState, ghost h': nat)
    requires tree.guard.Valid() && FreshAdds(m, ops) && forall op :: op in ops ==> OpKeyOk(op)
    requires KeptIndex(tree.guard.View(), tree.root, tree.guard.Next(), s, h, m)
    modifies tree, tree.guard
    ensures tree.guard.Valid() && |answers| <= |ops| && (full <==> |answers| < |ops|)
    ensures answers == ApplyAllSet(m, ops[..|answers|]).1
    ensures !full ==> KeptIndex(tree.guard.View(), tree.root, tree.guard.Next(), end, h', ApplyAllSet(m, ops).0)
  {
    answers, end, h' := [], s, h;
    ghost var now := m;
    assert ops[..0] == [] && ops[0..] == ops;
    for k := 0 to |ops|
      invariant tree.guard.Valid() && KeptIndex(tree.guard.View(), tree.root, tree.guard.Next(), end, h', now)
      invariant CameBy(m, ops, k, answers, now) && |answers| == k
    {
      CameOn(m, ops, k, answers, now);
      var a := OperateIndex(tree, ops[k], end, h', now);
      if a.None? {
        return answers, true, end, h';
      }
      h' := ApplyRefines(end, ops[k], h', now);
      answers := answers + [a.value];
      end, now := Apply(end, ops[k]).0, ApplySet(now, ops[k]).0;
    }
    assert ops[..|ops|] == ops;
    full := false;
  }

  /** A new index tree on pages holds the empty set. */
  method NewIndex(guard: WriteGuard) returns (tree: BTreeWriter, ok: bool)
    requires guard.Valid() && 0 < guard.Next()
    modifies guard
    ensures guard.Valid() && fresh(tree) && tree.guard == guard && ok == (old(guard.Next()) < MAX_PAGES)
    ensures ok ==> KeptIndex(guard.View(), tree.root, guard.Next(),
                     IndexState(Leaf(LeafRec(old(guard.Next()), [])), old(guard.Next()) + 1), 0, {})
  {
    var page := BTreeWriter.Create(guard);
    ok := page.Some?;
    tree := new BTreeWriter(guard, if ok then page.value else 0);
    if ok {
      EmptyIndexValid(page.value);
      assert LeafPages(Fringe(Leaf(LeafRec(page.value, [])))) == [page.value];
    }
  }

  /** Scanning the pages after a run gives exactly the keys of the set with the prefix, in byte order. */
  method ScanIndex(guard: WriteGuard, root: nat, prefix: seq<Byte>, ghost s: IndexState, ghost h: nat, ghost m: set<seq<Byte>>)
      returns (r: ScanOutcome<seq<seq<Byte>>>)
    requires guard.Valid() && KeptIndex(guard.View(), root, guard.Next(), s, h, m) && |prefix| <= BRANCH_KEY_MAX
    ensures r.Done? && KeysSorted(r.result) && forall key :: key in r.result <==> key in m && prefix <= key
  {
    KeptIsStored(guard.View(), root, guard.Next(), s, h, m);
    MatchingKeys(Keys(TreeRows(s.t)), prefix);
    var reader := new IndexTreeReader(guard, root);
    r := reader.ScanPrefix(prefix, None, s.t, h);
  }
}
