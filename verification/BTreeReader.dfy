/** Reading a stored tree: descents, walks along the leaf chain, row reassembly. */
module BTreeReader {
  import opened Seqs
  import opened Bytes
  import opened Overflow
  import opened BTree
  import opened BTreeShape
  import opened BTreeLeaves
  import opened BTreePages
  import opened BTreeStored
  import opened BTreeRuns
  import opened BTreeWriter
  import opened Cursor
  import opened Store

  /** The overflow pages among the pages of a file. */
  ghost function Over(v: Pages): map<nat, OverPage> {
    map p | p in v && v[p].OverflowPage? :: v[p].over
  }

  /** A row as readers return it: the whole row under its id. */
  function WholeRow(e: Entry, over: map<nat, OverPage>): Entry {
    match Reassemble(e.data, over)
    case Row(bytes) => Entry(e.id, bytes)
    case Failed(_) => e
  }

  function Whole(rows: seq<Entry>, over: map<nat, OverPage>): (s: seq<Entry>)
    ensures |s| == |rows| && forall i :: 0 <= i < |rows| ==> s[i] == WholeRow(rows[i], over)
  {
    seq(|rows|, i requires 0 <= i < |rows| => WholeRow(rows[i], over))
  }

  /** Rows in scan order. */
  function Listed(rows: seq<Entry>, dir: Dir): (s: seq<Entry>)
    ensures |s| == |rows|
    ensures forall i :: 0 <= i < |rows| ==> s[i] == rows[if dir.Asc? then i else |rows| - 1 - i]
  {
    seq(|rows|, i requires 0 <= i < |rows| => rows[if dir.Asc? then i else |rows| - 1 - i])
  }

  /** The rows of leaf `j` and of the leaves after it in scan direction. */
  function From(t: Tree, dir: Dir, j: nat): seq<Entry>
    requires j < |Fringe(t)|
  {
    Listed(Rows(if dir.Asc? then Fringe(t)[j..] else Fringe(t)[..j + 1]), dir)
  }

  /** A tree stored in the pages, rooted at `root`, with readable rows. */
  ghost predicate Stored(v: Pages, root: nat, t: Tree, h: nat, next: nat) {
    && Shaped(t) && Wf(t, h, 0, MAX_ID, ROW_BRANCH_KEYS, 1) && h < MAX_TREE_DEPTH
    && root == Root(t) && Holds(v, t) && Owned(t, next)
    && Linked(v, LeafPages(Fringe(t)))
    && Readable(TreeRows(t), Over(v))
  }

  ghost predicate LeavesHeld(v: Pages, f: seq<LeafRec>) {
    forall j :: 0 <= j < |f| ==> f[j].page in v && v[f[j].page].LeafPage? && v[f[j].page].rows == f[j].rows
  }

  lemma {:induction false} FringeHeld(v: Pages, t: Tree)
    requires Holds(v, t)
    ensures LeavesHeld(v, Fringe(t))
    decreases t, 1
  {
    if t.Branch? {
      FringesHeld(v, t, |t.kids|);
      assert t.kids[..|t.kids|] == t.kids;
    }
  }

  lemma {:induction false} FringesHeld(v: Pages, t: Tree, n: nat)
    requires t.Branch? && Holds(v, t) && n <= |t.kids|
    ensures LeavesHeld(v, Fringes(t.kids[..n]))
    decreases t, 0, n
  {
    if n > 0 {
      FringesHeld(v, t, n - 1);
      FringeHeld(v, t.kids[n - 1]);
      FringesConcat(t.kids[..n - 1], [t.kids[n - 1]]);
      FringeOne(t.kids[n - 1]);
      assert t.kids[..n] == t.kids[..n - 1] + [t.kids[n - 1]];
    }
  }

  lemma {:induction false} LeftmostLeaf(t: Tree, h: nat, lo: nat, hi: nat, cap: nat, min: nat)
    requires Wf(t, h, lo, hi, cap, min)
    ensures |Fringe(t)| > 0
    ensures t.Branch? ==> |Fringe(t.kids[0])| > 0 && Fringe(t)[0] == Fringe(t.kids[0])[0]
    decreases t
  {
    if t.Branch? {
      LeftmostLeaf(t.kids[0], h - 1, Bound(t.keys, lo, hi, 0), Bound(t.keys, lo, hi, 1), cap, MinKeys(cap));
      FringesAround(t.kids, 0);
      assert Fringes(t.kids[..0]) == [];
    }
  }

  lemma {:induction false} RightmostLeaf(t: Tree, h: nat, lo: nat, hi: nat, cap: nat, min: nat)
    requires Wf(t, h, lo, hi, cap, min)
    ensures |Fringe(t)| > 0
    ensures t.Branch? ==>
      var k := t.kids[|t.keys|]; |Fringe(k)| > 0 && Fringe(t)[|Fringe(t)| - 1] == Fringe(k)[|Fringe(k)| - 1]
    decreases t
  {
    if t.Branch? {
      var n := |t.keys|;
      RightmostLeaf(t.kids[n], h - 1, Bound(t.keys, lo, hi, n), Bound(t.keys, lo, hi, n + 1), cap, MinKeys(cap));
      FringesAround(t.kids, n);
      assert Fringes(t.kids[n + 1..]) == [];
    }
  }

  /** Routing a key at or above the range leads to the last child. */
  lemma RouteLast(keys: seq<nat>, lo: nat, hi: nat, id: nat)
    requires hi <= id && forall i :: 0 <= i <= |keys| ==> Bound(keys, lo, hi, i) < Bound(keys, lo, hi, i + 1)
    ensures ChildIndex(keys, id) == |keys|
  {
    var i := ChildIndex(keys, id);
    if i < |keys| { BoundsRise(keys, lo, hi, i + 1, |keys| + 1); }
  }

  /** Leaf `j` of the tree is where `id` belongs. */
  ghost predicate BelongsAt(t: Tree, id: nat, j: nat) {
    && j < |Fringe(t)|
    && Surrounds(Rows(Fringe(t)[..j]), Rows(Fringe(t)[j + 1..]), id)
  }

  lemma LeafForBelongs(t: Tree, id: nat, h: nat) returns (j: nat)
    requires Shaped(t) && Wf(t, h, 0, MAX_ID, ROW_BRANCH_KEYS, 1) && id < MAX_ID
    ensures BelongsAt(t, id, j) && Fringe(t)[j] == LeafFor(t, id)
    ensures TreeSearch(t, id) == RowsSearch(Fringe(t)[j].rows, id)
  {
    var b, x, a := Route(t, Entry(id, []), 0, h, 0, MAX_ID, ROW_BRANCH_KEYS, 1);
    j := |b|;
    assert Fringe(t)[..j] == b && Fringe(t)[j + 1..] == a;
  }

  /** The subtree a descent for `id` has reached after `d` steps. */
  ghost function SubAt(t: Tree, id: nat, d: nat): Tree
    requires Shaped(t)
  {
    if d == 0 || t.Leaf? then t else SubAt(t.kids[ChildIndex(t.keys, id)], id, d - 1)
  }

  /** Where a descent stands after `d` steps: at the leaf after as many steps as the tree is high. */
  lemma {:induction false} SubAtHeld(v: Pages, t: Tree, id: nat, d: nat, h: nat, lo: nat, hi: nat, cap: nat, min: nat)
    requires Shaped(t) && Wf(t, h, lo, hi, cap, min) && Holds(v, t) && lo <= id < hi && d <= h
    ensures var s := SubAt(t, id, d);
            && Holds(v, s) && (s.Leaf? <==> d == h) && (s.Leaf? ==> s.leaf == LeafFor(t, id))
            && (s.Branch? ==> |s.kids| == |s.keys| + 1 && SubAt(t, id, d + 1) == s.kids[ChildIndex(s.keys, id)])
    decreases t
  {
    if d > 0 {
      var i := ChildIndex(t.keys, id);
      StepDown(v, t, id, h, lo, hi, cap, min);
      SubAtHeld(v, t.kids[i], id, d - 1, h - 1, Bound(t.keys, lo, hi, i), Bound(t.keys, lo, hi, i + 1), cap, MinKeys(cap));
    }
  }

  /** One step of a descent, from a branch to the child a key is routed to. */
  lemma StepDown(v: Pages, t: Tree, id: nat, h: nat, lo: nat, hi: nat, cap: nat, min: nat)
    requires t.Branch? && Shaped(t) && Wf(t, h, lo, hi, cap, min) && Holds(v, t) && lo <= id < hi
    ensures var i := ChildIndex(t.keys, id);
            && h > 0 && i < |t.kids| && |t.kids| == |t.keys| + 1
            && t.page in v && v[t.page] == BranchPage(t.keys, Roots(t.kids))
            && Shaped(t.kids[i]) && Holds(v, t.kids[i]) && LeafFor(t.kids[i], id) == LeafFor(t, id)
            && Wf(t.kids[i], h - 1, Bound(t.keys, lo, hi, i), Bound(t.keys, lo, hi, i + 1), cap, MinKeys(cap))
            && Bound(t.keys, lo, hi, i) <= id < Bound(t.keys, lo, hi, i + 1)
  {
    RouteInRange(t.keys, lo, hi, id);
  }

  /** The leaf chain as pages: leaf `j` is on `ps[j]` and links to its neighbours. */
  lemma ChainRead(v: Pages, t: Tree, next: nat, j: nat)
    requires Holds(v, t) && Linked(v, LeafPages(Fringe(t))) && j < |Fringe(t)|
    ensures var p, ps := Fringe(t)[j].page, LeafPages(Fringe(t));
            p in v && v[p] == LeafPage(Fringe(t)[j].rows, At(ps, j + 1), At(ps, j - 1))
    ensures Fringe(t)[j].page != 0
  {
    FringeHeld(v, t);
    var ps := LeafPages(Fringe(t));
    assert ps[j] == Fringe(t)[j].page && ps[j] in ps;
  }

  /** There are no more leaves than allocated pages, so the page-count guards never fire. */
  lemma FewLeaves(t: Tree, next: nat)
    requires Owned(t, next)
    ensures |Fringe(t)| <= next
  {
    LeavesDistinct(t, next);
    Pigeonhole(LeafPages(Fringe(t)), next);
  }

  lemma LeafSorted(t: Tree, h: nat, j: nat)
    requires Wf(t, h, 0, MAX_ID, ROW_BRANCH_KEYS, 1) && j < |Fringe(t)|
    ensures Sorted(Fringe(t)[j].rows)
  {
    FringeSorted(t, h, 0, MAX_ID, ROW_BRANCH_KEYS, 1);
    var f := Fringe(t);
    CutAround(f, j);
    RowsAround(f[..j], f[j], f[j + 1..]);
    var a, x, b := Rows(f[..j]), f[j].rows, Rows(f[j + 1..]);
    Middle(a, x, b);
  }

  lemma LeafReadable(t: Tree, over: map<nat, OverPage>, j: nat)
    requires Readable(TreeRows(t), over) && j < |Fringe(t)|
    ensures Readable(Fringe(t)[j].rows, over)
  {
    var f := Fringe(t);
    CutAround(f, j);
    RowsAround(f[..j], f[j], f[j + 1..]);
    var a, x, b := Rows(f[..j]), f[j].rows, Rows(f[j + 1..]);
    Middle(a, x, b);
  }

  lemma WholeStep(f: seq<LeafRec>, j: nat, over: map<nat, OverPage>)
    requires j < |f|
    ensures Whole(Rows(f[..j + 1]), over) == Whole(Rows(f[..j]), over) + Whole(f[j].rows, over)
  {
    CutAround(f, j);
    RowsConcat(f[..j], [f[j]]);
    assert [f[j]][1..] == [] && Rows([f[j]]) == f[j].rows + Rows([f[j]][1..]);
  }

  /** A null link marks the last leaf. */
  lemma NextIsNull(t: Tree, v: Pages, j: nat)
    requires Linked(v, LeafPages(Fringe(t))) && j <= |Fringe(t)| && At(LeafPages(Fringe(t)), j) == 0
    ensures j == |Fringe(t)|
  {
    var ps := LeafPages(Fringe(t));
    forall i | 0 <= i < |ps| ensures ps[i] != 0 { assert ps[i] in ps; }
  }

  // ----- scans in either direction -----

  /** Leaves still to visit from leaf `j` on. */
  function Left(f: seq<LeafRec>, dir: Dir, j: nat): nat
    requires j < |f|
  {
    if dir.Asc? then |f| - j else j + 1
  }

  function Beside(dir: Dir, j: nat): nat
    requires dir.Asc? || j > 0
  {
    if dir.Asc? then j + 1 else j - 1
  }

  lemma ListedConcat(a: seq<Entry>, b: seq<Entry>, dir: Dir)
    ensures Listed(a + b, dir) == if dir.Asc? then Listed(a, dir) + Listed(b, dir) else Listed(b, dir) + Listed(a, dir)
  {
  }

  lemma WholeConcat(a: seq<Entry>, b: seq<Entry>, over: map<nat, OverPage>)
    ensures Whole(a + b, over) == Whole(a, over) + Whole(b, over)
  {
  }

  lemma OneLeafRows(x: LeafRec)
    ensures Rows([x]) == x.rows
  {
    assert [x][1..] == [] && Rows([x]) == x.rows + Rows([x][1..]);
  }

  /** What is left from leaf `j` on is that leaf, then what is left from its neighbour on. */
  lemma FromStep(t: Tree, dir: Dir, j: nat, over: map<nat, OverPage>)
    requires j < |Fringe(t)|
    ensures Whole(From(t, dir, j), over) ==
      Whole(Listed(Fringe(t)[j].rows, dir), over)
      + (if Left(Fringe(t), dir, j) == 1 then [] else Whole(From(t, dir, Beside(dir, j)), over))
  {
    RawStep(t, dir, j);
    WholeConcat(Listed(Fringe(t)[j].rows, dir), if Left(Fringe(t), dir, j) == 1 then [] else From(t, dir, Beside(dir, j)), over);
  }

  /** The same for the rows as stored. */
  lemma RawStep(t: Tree, dir: Dir, j: nat)
    requires j < |Fringe(t)|
    ensures From(t, dir, j) ==
      Listed(Fringe(t)[j].rows, dir) + (if Left(Fringe(t), dir, j) == 1 then [] else From(t, dir, Beside(dir, j)))
  {
    if dir.Asc? { RawStepUp(Fringe(t), j); } else { RawStepDown(Fringe(t), j); }
  }

  lemma RawStepUp(f: seq<LeafRec>, j: nat)
    requires j < |f|
    ensures Listed(Rows(f[j..]), Asc) == Listed(f[j].rows, Asc) + (if j + 1 == |f| then [] else Listed(Rows(f[j + 1..]), Asc))
  {
    OneLeafRows(f[j]);
    CutAround(f, j);
    RowsConcat([f[j]], f[j + 1..]);
    ListedConcat(f[j].rows, Rows(f[j + 1..]), Asc);
    assert j + 1 == |f| ==> f[j + 1..] == [] && Listed(Rows([]), Asc) == [];
  }

  lemma RawStepDown(f: seq<LeafRec>, j: nat)
    requires j < |f|
    ensures Listed(Rows(f[..j + 1]), Desc) == Listed(f[j].rows, Desc) + (if j == 0 then [] else Listed(Rows(f[..j]), Desc))
  {
    OneLeafRows(f[j]);
    CutAround(f, j);
    RowsConcat(f[..j], [f[j]]);
    ListedConcat(Rows(f[..j]), f[j].rows, Desc);
    assert j == 0 ==> f[..j] == [] && Listed(Rows([]), Desc) == [];
  }

  /** The candidates a scan has still to meet from leaf `j` on. */
  function Remaining(t: Tree, dir: Dir, j: nat, after: Option<nat>, over: map<nat, OverPage>): seq<Entry>
    requires j < |Fringe(t)|
  {
    Candidates(Whole(From(t, dir, j), over), dir, after)
  }

  lemma RemainingStep(t: Tree, dir: Dir, j: nat, after: Option<nat>, over: map<nat, OverPage>)
    requires j < |Fringe(t)|
    ensures Remaining(t, dir, j, after, over) ==
      Candidates(Whole(Listed(Fringe(t)[j].rows, dir), over), dir, after)
      + (if Left(Fringe(t), dir, j) == 1 then [] else Remaining(t, dir, Beside(dir, j), after, over))
  {
    FromStep(t, dir, j, over);
    var x := Whole(Listed(Fringe(t)[j].rows, dir), over);
    if Left(Fringe(t), dir, j) == 1 {
      assert x + [] == x;
    } else {
      CandidatesConcat(x, Whole(From(t, dir, Beside(dir, j)), over), dir, after);
    }
  }

  /** Leaves on the wrong side of the bound's leaf hold no candidates. */
  lemma NothingSkipped(t: Tree, dir: Dir, id: nat, j: nat, over: map<nat, OverPage>)
    requires BelongsAt(t, id, j)
    ensures Candidates(Whole(From(t, dir, j), over), dir, Some(id)) ==
            Candidates(Whole(Listed(TreeRows(t), dir), over), dir, Some(id))
  {
    var f := Fringe(t);
    if dir.Asc? {
      CutAt(f, j);
      RowsConcat(f[..j], f[j..]);
      SkippedPart(Rows(f[..j]), Rows(f[j..]), Rows(f), dir, id, over);
    } else {
      CutAt(f, j + 1);
      RowsConcat(f[..j + 1], f[j + 1..]);
      SkippedPart(Rows(f[j + 1..]), Rows(f[..j + 1]), Rows(f), dir, id, over);
    }
  }

  lemma SkippedPart(skipped: seq<Entry>, visited: seq<Entry>, all: seq<Entry>, dir: Dir, id: nat, over: map<nat, OverPage>)
    requires all == if dir.Asc? then skipped + visited else visited + skipped
    requires forall e :: e in skipped ==> !Beyond(dir, Some(id), e.id)
    ensures Candidates(Whole(Listed(visited, dir), over), dir, Some(id)) ==
            Candidates(Whole(Listed(all, dir), over), dir, Some(id))
  {
    if dir.Asc? { ListedConcat(skipped, visited, dir); } else { ListedConcat(visited, skipped, dir); }
    var a, b := Listed(skipped, dir), Listed(visited, dir);
    WholeConcat(a, b, over);
    CandidatesConcat(Whole(a, over), Whole(b, over), dir, Some(id));
    NoneListed(skipped, dir, id, over);
  }

  lemma NoneListed(rows: seq<Entry>, dir: Dir, id: nat, over: map<nat, OverPage>)
    requires forall e :: e in rows ==> !Beyond(dir, Some(id), e.id)
    ensures Candidates(Whole(Listed(rows, dir), over), dir, Some(id)) == []
  {
    NoCandidates(Whole(Listed(rows, dir), over), dir, Some(id));
  }

  lemma LinkIsNull(t: Tree, v: Pages, dir: Dir, j: nat)
    requires Linked(v, LeafPages(Fringe(t))) && j < |Fringe(t)|
    requires At(LeafPages(Fringe(t)), if dir.Asc? then j + 1 else j - 1) == 0
    ensures Left(Fringe(t), dir, j) == 1
  {
    var ps := LeafPages(Fringe(t));
    var k := if dir.Asc? then j + 1 else j - 1;
    forall i | 0 <= i < |ps| ensures ps[i] != 0 { assert ps[i] in ps; }
  }

  lemma LinkIsNext(t: Tree, v: Pages, dir: Dir, j: nat)
    requires Linked(v, LeafPages(Fringe(t))) && j < |Fringe(t)|
    requires At(LeafPages(Fringe(t)), if dir.Asc? then j + 1 else j - 1) != 0
    ensures Left(Fringe(t), dir, j) > 1 && Beside(dir, j) < |Fringe(t)|
    ensures At(LeafPages(Fringe(t)), if dir.Asc? then j + 1 else j - 1) == Fringe(t)[Beside(dir, j)].page
  {
  }

  // ----- batch fetch -----

  ghost predicate Ascending(ids: seq<nat>) {
    forall i, j :: 0 <= i < j < |ids| ==> ids[i] <= ids[j]
  }

  /** The rows whose id is in the list, in row order. */
  function Named(rows: seq<Entry>, ids: seq<nat>): seq<Entry> {
    if rows == [] then [] else (if rows[0].id in ids then [rows[0]] else []) + Named(rows[1..], ids)
  }

  /** The first `next` ids are below all these rows. */
  ghost predicate Passed(rows: seq<Entry>, ids: seq<nat>, next: nat)
    requires next <= |ids|
  {
    forall i, e :: 0 <= i < next && e in rows ==> ids[i] < e.id
  }

  lemma {:induction false} NamedConcat(a: seq<Entry>, b: seq<Entry>, ids: seq<nat>)
    ensures Named(a + b, ids) == Named(a, ids) + Named(b, ids)
  {
    if a == [] {
      EmptyFront(a, b);
    } else {
      NamedConcat(a[1..], b, ids);
      TailOfConcat(a, b);
    }
  }

  /** When all ids have been passed, none of the rows is named. */
  /** Which rows those are; none is named twice, and their order is that of the rows. */
  lemma {:induction false} NamedAre(rows: seq<Entry>, ids: seq<nat>)
    ensures forall e :: e in Named(rows, ids) <==> e in rows && e.id in ids
    ensures Sorted(rows) ==> Sorted(Named(rows, ids))
  {
    if rows != [] {
      NamedAre(rows[1..], ids);
      assert rows == [rows[0]] + rows[1..];
      assert Sorted(rows) ==> Sorted(rows[1..]) && forall e :: e in rows[1..] ==> rows[0].id < e.id;
    }
  }

  lemma {:induction false} NamedNone(rows: seq<Entry>, ids: seq<nat>)
    requires Passed(rows, ids, |ids|)
    ensures Named(rows, ids) == []
  {
    if rows != [] {
      assert rows[0] in rows;
      NamedNone(rows[1..], ids);
    }
  }

  lemma NamedStep(rows: seq<Entry>, i: nat, ids: seq<nat>, at: nat)
    requires i < |rows| && at <= |ids| && Ascending(ids) && Passed(rows[i..], ids, at)
    requires at < |ids| ==> ids[at] >= rows[i].id
    ensures rows[i].id in ids <==> at < |ids| && ids[at] == rows[i].id
    ensures Named(rows[..i + 1], ids) == Named(rows[..i], ids) + (if rows[i].id in ids then [rows[i]] else [])
  {
    CutAround(rows, i);
    assert rows[i] in rows[i..];
    IdReached(ids, at, rows[i].id);
    NamedConcat(rows[..i], [rows[i]], ids);
    NamedOne(rows[i], ids);
  }

  lemma IdReached(ids: seq<nat>, at: nat, id: nat)
    requires at <= |ids| && Ascending(ids) && (at < |ids| ==> ids[at] >= id) && forall i :: 0 <= i < at ==> ids[i] < id
    ensures id in ids <==> at < |ids| && ids[at] == id
  {
  }

  lemma NamedOne(e: Entry, ids: seq<nat>)
    ensures Named([e], ids) == if e.id in ids then [e] else []
  {
    assert [e][1..] == [];
  }

  lemma NamedFinished(rows: seq<Entry>, i: nat, ids: seq<nat>)
    requires i <= |rows| && Passed(rows[i..], ids, |ids|)
    ensures Named(rows, ids) == Named(rows[..i], ids)
  {
    var head, tail := rows[..i], rows[i..];
    assert head + tail == rows;
    NamedConcat(head, tail, ids);
    NamedNone(tail, ids);
  }

  lemma NamedTaken(rows: seq<Entry>, i: nat, ids: seq<nat>, over: map<nat, OverPage>)
    requires i < |rows| && Named(rows[..i + 1], ids) == Named(rows[..i], ids) + [rows[i]]
    ensures Whole(Named(rows[..i + 1], ids), over) == Whole(Named(rows[..i], ids), over) + [WholeRow(rows[i], over)]
  {
    WholeConcat(Named(rows[..i], ids), [rows[i]], over);
  }

  /** What a batch fetch has still to do at leaf `j`; nothing once all ids are passed. */
  ghost predicate Pending(
      goal: seq<Entry>, results: seq<Entry>, t: Tree, j: int, ids: seq<nat>, next: nat, over: map<nat, OverPage>)
  {
    && 0 <= j < |Fringe(t)| && next <= |ids| && Passed(Rows(Fringe(t)[j..]), ids, next)
    && (if next < |ids| then goal == results + Whole(Named(Rows(Fringe(t)[j..]), ids), over) else goal == results)
  }

  lemma PendingStep(
      goal: seq<Entry>, results: seq<Entry>, leaf: seq<Entry>, rest: seq<Entry>, ids: seq<nat>, over: map<nat, OverPage>)
    requires goal == results + Whole(Named(leaf + rest, ids), over)
    ensures goal == (results + Whole(Named(leaf, ids), over)) + Whole(Named(rest, ids), over)
  {
    NamedConcat(leaf, rest, ids);
    WholeConcat(Named(leaf, ids), Named(rest, ids), over);
    Assoc(results, Whole(Named(leaf, ids), over), Whole(Named(rest, ids), over));
  }

  lemma NothingLeft(goal: seq<Entry>, results: seq<Entry>, rest: seq<Entry>, ids: seq<nat>, over: map<nat, OverPage>)
    requires goal == results + Whole(Named(rest, ids), over) && (rest == [] || Passed(rest, ids, |ids|))
    ensures goal == results
  {
    NamedNone(rest, ids);
    assert Whole([], over) == [];
  }

  lemma PassedMore(rows: seq<Entry>, i: nat, rest: seq<Entry>, ids: seq<nat>, from: nat, at: nat)
    requires i < |rows| && from <= at <= |ids| && Sorted(rows)
    requires forall e, f :: e in rows && f in rest ==> e.id < f.id
    requires Passed(rows[i..], ids, from) && Passed(rest, ids, from)
    requires forall k :: from <= k < at ==> ids[k] < rows[i].id
    ensures Passed(rows[i..], ids, at) && Passed(rest, ids, at)
  {
    assert rows[i] in rows;
    assert forall e :: e in rows[i..] ==> rows[i].id <= e.id;
  }

  lemma PassedOne(rows: seq<Entry>, i: nat, rest: seq<Entry>, ids: seq<nat>, at: nat)
    requires i < |rows| && at < |ids| && Sorted(rows) && ids[at] == rows[i].id
    requires forall e, f :: e in rows && f in rest ==> e.id < f.id
    requires Passed(rows[i..], ids, at) && Passed(rest, ids, at)
    ensures Passed(rows[i + 1..], ids, at + 1) && Passed(rest, ids, at + 1)
  {
    assert rows[i] in rows;
    assert forall e :: e in rows[i + 1..] ==> e in rows[i..];
  }

  /** Rows on leaves before the leaf of the smallest id are not named. */
  lemma StartsAtFirst(t: Tree, ids: seq<nat>, j: nat)
    requires ids != [] && Ascending(ids) && BelongsAt(t, ids[0], j)
    ensures Named(TreeRows(t), ids) == Named(Rows(Fringe(t)[j..]), ids)
  {
    var f := Fringe(t);
    CutAt(f, j);
    RowsConcat(f[..j], f[j..]);
    NamedConcat(Rows(f[..j]), Rows(f[j..]), ids);
    NoneBelow(Rows(f[..j]), ids);
  }

  lemma {:induction false} NoneBelow(rows: seq<Entry>, ids: seq<nat>)
    requires forall e, id :: e in rows && id in ids ==> e.id < id
    ensures Named(rows, ids) == []
  {
    if rows != [] {
      assert rows[0] in rows;
      NoneBelow(rows[1..], ids);
    }
  }

  /** The rows from leaf `j` on are its rows and then, all higher, those of the leaves behind. */
  lemma TailRows(t: Tree, h: nat, j: nat)
    requires Wf(t, h, 0, MAX_ID, ROW_BRANCH_KEYS, 1) && j < |Fringe(t)|
    ensures Rows(Fringe(t)[j..]) == Fringe(t)[j].rows + Rows(Fringe(t)[j + 1..])
    ensures Sorted(Fringe(t)[j].rows)
    ensures forall e, g :: e in Fringe(t)[j].rows && g in Rows(Fringe(t)[j + 1..]) ==> e.id < g.id
  {
    var f := Fringe(t);
    FringeSorted(t, h, 0, MAX_ID, ROW_BRANCH_KEYS, 1);
    CutAround(f, j);
    CutAt(f, j);
    RowsConcat(f[..j], f[j..]);
    SortedParts(Rows(f[..j]), f[j].rows, Rows(f[j + 1..]));
  }

  lemma SortedParts(a: seq<Entry>, x: seq<Entry>, b: seq<Entry>)
    requires Sorted(a + (x + b))
    ensures Sorted(x) && forall e, g :: e in x && g in b ==> e.id < g.id
  {
    var all := a + (x + b);
    assert forall i :: 0 <= i < |x| ==> all[|a| + i] == x[i];
    assert forall i :: 0 <= i < |b| ==> all[|a| + |x| + i] == b[i];
  }

  /** What collecting does with row `i` of a list: pass it over, or finish, or keep or drop it. */
  lemma CollectOne(list: seq<Entry>, i: nat, dir: Dir, after: Option<nat>, rest: seq<Entry>,
                   limit: nat, keep: Entry -> bool, acc: seq<Entry>)
    requires i < |list| && limit > 0
    ensures var all, later := Candidates(list[i..], dir, after) + rest, Candidates(list[i + 1..], dir, after) + rest;
            Collect(all, limit, keep, acc) ==
              if !Beyond(dir, after, list[i].id) then Collect(later, limit, keep, acc)
              else if |acc| >= limit then Batch(acc, Some(acc[|acc| - 1].id))
              else Collect(later, limit, keep, if keep(list[i]) then acc + [list[i]] else acc)
  {
    var c := Candidates(list[i + 1..], dir, after);
    CutAround(list, i);
    if Beyond(dir, after, list[i].id) {
      Assoc([list[i]], c, rest);
      CutAround([list[i]] + (c + rest), 0);
    } else {
      EmptyFront([], c);
    }
  }

  /** On the way to the last leaf, at the subtree `sub`. */
  ghost predicate AtRight(v: Pages, t: Tree, sub: Tree, h: nat, lo: nat, hi: nat, min: nat, current: nat) {
    && Wf(sub, h, lo, hi, ROW_BRANCH_KEYS, min) && hi <= MAX_ID && Holds(v, sub) && current == Root(sub)
    && |Fringe(t)| > 0 && |Fringe(sub)| > 0 && Fringe(sub)[|Fringe(sub)| - 1] == Fringe(t)[|Fringe(t)| - 1]
  }

  lemma StepRight(v: Pages, t: Tree, sub: Tree, h: nat, lo: nat, hi: nat, min: nat, current: nat)
    requires AtRight(v, t, sub, h, lo, hi, min, current) && sub.Branch?
    ensures var i := |sub.keys|;
            && h > 0 && |sub.kids| == i + 1 && ChildIndex(sub.keys, MAX_ID) == i
            && AtRight(v, t, sub.kids[i], h - 1, Bound(sub.keys, lo, hi, i), hi, MinKeys(ROW_BRANCH_KEYS), Root(sub.kids[i]))
  {
    var i := |sub.keys|;
    RouteLast(sub.keys, lo, hi, MAX_ID);
    RightmostLeaf(sub, h, lo, hi, ROW_BRANCH_KEYS, min);
    assert Bound(sub.keys, lo, hi, i + 1) == hi;
    assert Wf(sub.kids[i], h - 1, Bound(sub.keys, lo, hi, i), hi, ROW_BRANCH_KEYS, MinKeys(ROW_BRANCH_KEYS));
  }

  /** A leaf either completes the batch or adds to it. */
  datatype LeafScan = Full(batch: Batch) | More(rows: seq<Entry>) | BadRow

  datatype ScanOutcome<T> = Done(result: T) | ChainCycleError | BadPage | RowUnreadable

  /** The reader sees the pages a guard shows; with nothing staged those are the committed pages. */
  class BTreeReader {
    const guard: WriteGuard
    const root: nat

    constructor (guard: WriteGuard, root: nat)
      ensures this.guard == guard && this.root == root
    {
      this.guard, this.root := guard, root;
    }

    method FindLeafForRowid(id: nat, ghost t: Tree, ghost h: nat) returns (page: Option<nat>, ghost j: nat)
      requires guard.Valid() && Stored(guard.View(), root, t, h, guard.Next()) && id < MAX_ID
      ensures BelongsAt(t, id, j) && page == Some(Fringe(t)[j].page)
      ensures TreeSearch(t, id) == RowsSearch(Fringe(t)[j].rows, id)
    {
      j := LeafForBelongs(t, id, h);
      var current := root;
      for depth := 0 to MAX_TREE_DEPTH
        invariant depth <= h && current == Root(SubAt(t, id, depth))
      {
        SubAtHeld(guard.View(), t, id, depth, h, 0, MAX_ID, ROW_BRANCH_KEYS, 1);
        var node := guard.ReadPage(current);
        if node.value.LeafPage? {
          return Some(current), j;
        }
        var i, child := FindChild(node.value.keys, node.value.children, id);
        current := child;
      }
      return None, j;
    }

    method FindLeftmostLeaf(ghost t: Tree, ghost h: nat) returns (page: Option<nat>)
      requires guard.Valid() && Stored(guard.View(), root, t, h, guard.Next())
      ensures |Fringe(t)| > 0 && page == Some(Fringe(t)[0].page)
    {
      var current := root;
      LeftmostLeaf(t, h, 0, MAX_ID, ROW_BRANCH_KEYS, 1);
      ghost var sub, hs: nat, lo: nat, hi: nat, min: nat := t, h, 0, MAX_ID, 1;
      for depth := 0 to MAX_TREE_DEPTH
        invariant Wf(sub, hs, lo, hi, ROW_BRANCH_KEYS, min)
        invariant current == Root(sub) && Holds(guard.View(), sub)
        invariant depth + hs == h && |Fringe(sub)| > 0 && Fringe(sub)[0] == Fringe(t)[0]
      {
        var node := guard.ReadPage(current);
        if node.value.LeafPage? {
          return Some(current);
        }
        current := node.value.children[0];
        LeftmostLeaf(sub, hs, lo, hi, ROW_BRANCH_KEYS, min);
        lo, hi, min := Bound(sub.keys, lo, hi, 0), Bound(sub.keys, lo, hi, 1), MinKeys(ROW_BRANCH_KEYS);
        hs := hs - 1;
        sub := sub.kids[0];
      }
      return None;
    }

    /** The largest key is routed through the branches like any other. */
    method FindRightmostLeaf(ghost t: Tree, ghost h: nat) returns (page: Option<nat>)
      requires guard.Valid() && Stored(guard.View(), root, t, h, guard.Next())
      ensures |Fringe(t)| > 0 && page == Some(Fringe(t)[|Fringe(t)| - 1].page)
    {
      var current := root;
      RightmostLeaf(t, h, 0, MAX_ID, ROW_BRANCH_KEYS, 1);
      ghost var sub, hs: nat, lo: nat, hi: nat, min: nat := t, h, 0, MAX_ID, 1;
      for depth := 0 to MAX_TREE_DEPTH
        invariant AtRight(guard.View(), t, sub, hs, lo, hi, min, current) && depth + hs == h
      {
        var node := guard.ReadPage(current);
        if node.value.LeafPage? {
          return Some(current);
        }
        var i, child := FindChild(node.value.keys, node.value.children, MAX_ID);
        StepRight(guard.View(), t, sub, hs, lo, hi, min, current);
        current := child;
        lo, min := Bound(sub.keys, lo, hi, i), MinKeys(ROW_BRANCH_KEYS);
        hs := hs - 1;
        sub := sub.kids[i];
      }
      return None;
    }

    /** Every row of the tree in key order, reassembled. */
    method ScanAll(ghost t: Tree, ghost h: nat, ghost over: map<nat, OverPage>) returns (r: ScanOutcome<seq<Entry>>)
      requires guard.Valid() && Stored(guard.View(), root, t, h, guard.Next())
      requires over == Over(guard.View())
      ensures r == Done(Whole(TreeRows(t), over))
    {
      var first := FindLeftmostLeaf(t, h);
      ghost var f := Fringe(t);
      ghost var j := 0;
      FewLeaves(t, guard.Next());
      var maxPages := guard.file.numPages + guard.newPageCount;
      var visited, results, current := 0, [], first.value;
      assert f[..0] == [];
      while true
        invariant j < |f| && current == f[j].page && visited == j
        invariant results == Whole(Rows(f[..j]), over)
        decreases |f| - j
      {
        visited := visited + 1;
        if visited > maxPages {
          return ChainCycleError;
        }
        ChainRead(guard.View(), t, guard.Next(), j);
        LeafReadable(t, over, j);
        var page := guard.ReadPage(current);
        var whole := ReadRows(page.value.rows, over);
        if whole.None? {
          return RowUnreadable;
        }
        results := results + whole.value;
        WholeStep(f, j, over);
        j := j + 1;
        if page.value.next == 0 {
          assert f[..j] == f by { NextIsNull(t, guard.View(), j); }
          return Done(results);
        }
        current := page.value.next;
      }
    }

    /**
     * The cursor: rows past the bound in either direction, kept if they pass, up to the
     * limit; the bound of the last one when another candidate is met after that.
     */
    method ScanFrom(after: Option<nat>, dir: Dir, limit: nat, keep: Entry -> bool,
                    ghost t: Tree, ghost h: nat, ghost over: map<nat, OverPage>)
        returns (r: ScanOutcome<Batch>)
      requires guard.Valid() && Stored(guard.View(), root, t, h, guard.Next())
      requires over == Over(guard.View()) && (after.Some? ==> after.value < MAX_ID)
      ensures r == Done(ScanBatch(Whole(Listed(TreeRows(t), dir), over), dir, after, limit, keep))
    {
      if limit == 0 {
        return Done(Batch([], None));
      }
      ghost var target := ScanBatch(Whole(Listed(TreeRows(t), dir), over), dir, after, limit, keep);
      var current, j := StartLeaf(after, dir, t, h, over, limit, keep);
      FewLeaves(t, guard.Next());
      var maxPages := guard.file.numPages + guard.newPageCount;
      var visited := 0;
      var results := [];
      while true
        invariant 0 <= j < |Fringe(t)| && current == Fringe(t)[j].page
        invariant visited + Left(Fringe(t), dir, j) <= |Fringe(t)|
        invariant Collect(Remaining(t, dir, j, after, over), limit, keep, results) == target
        decreases Left(Fringe(t), dir, j)
      {
        visited := visited + 1;
        if visited > maxPages {
          return ChainCycleError;
        }
        var leaf, neighbour := VisitLeaf(current, after, dir, limit, keep, results, t, h, j, over);
        if leaf.BadRow? {
          return RowUnreadable;
        }
        if leaf.Full? {
          return Done(leaf.batch);
        }
        results := leaf.rows;
        if neighbour == 0 {
          return Done(Batch(results, None));
        }
        current := neighbour;
        j := Beside(dir, j);
      }
    }

    /** Scan the leaf at position `j` of the chain and read its link in scan direction. */
    method VisitLeaf(current: nat, after: Option<nat>, dir: Dir, limit: nat, keep: Entry -> bool, results: seq<Entry>,
                     ghost t: Tree, ghost h: nat, ghost j: nat, ghost over: map<nat, OverPage>)
        returns (leaf: LeafScan, neighbour: nat)
      requires guard.Valid() && Stored(guard.View(), root, t, h, guard.Next()) && over == Over(guard.View())
      requires j < |Fringe(t)| && current == Fringe(t)[j].page && limit > 0
      ensures neighbour == 0 <==> Left(Fringe(t), dir, j) == 1
      ensures neighbour != 0 ==> Beside(dir, j) < |Fringe(t)| && neighbour == Fringe(t)[Beside(dir, j)].page
      ensures var b := Collect(Remaining(t, dir, j, after, over), limit, keep, results);
              match leaf
              case Full(batch) => batch == b
              case More(more) =>
                b == if neighbour == 0 then Batch(more, None)
                     else Collect(Remaining(t, dir, Beside(dir, j), after, over), limit, keep, more)
              case BadRow => false
    {
      ChainRead(guard.View(), t, guard.Next(), j);
      LeafReadable(t, over, j);
      var page := guard.ReadPage(current);
      neighbour := if dir.Asc? then page.value.next else page.value.prev;
      if neighbour == 0 {
        LinkIsNull(t, guard.View(), dir, j);
      } else {
        LinkIsNext(t, guard.View(), dir, j);
      }
      ghost var rest := if neighbour == 0 then [] else Remaining(t, dir, Beside(dir, j), after, over);
      RemainingStep(t, dir, j, after, over);
      leaf := ScanLeaf(page.value.rows, after, dir, limit, keep, results, rest, over);
    }

    /** Fetch the rows with the given ids, in one walk from the leaf of the smallest. */
    method MultiGetSorted(ids: seq<nat>, ghost t: Tree, ghost h: nat, ghost over: map<nat, OverPage>)
        returns (r: ScanOutcome<seq<Entry>>)
      requires guard.Valid() && Stored(guard.View(), root, t, h, guard.Next())
      requires over == Over(guard.View()) && Ascending(ids) && forall id :: id in ids ==> id < MAX_ID
      ensures r == Done(Whole(Named(TreeRows(t), ids), over))
    {
      if ids == [] {
        NamedNone(TreeRows(t), ids);
        return Done([]);
      }
      assert ids[0] in ids;
      var page, j := FindLeafForRowid(ids[0], t, h);
      FewLeaves(t, guard.Next());
      StartsAtFirst(t, ids, j);
      var maxPages := guard.file.numPages + guard.newPageCount;
      r := MultiGetFrom(page.value, maxPages, ids, t, h, j, Whole(Named(TreeRows(t), ids), over), over);
    }

    method MultiGetFrom(first: nat, maxPages: nat, ids: seq<nat>,
                        ghost t: Tree, ghost h: nat, ghost start: nat, ghost goal: seq<Entry>, ghost over: map<nat, OverPage>)
        returns (r: ScanOutcome<seq<Entry>>)
      requires guard.Valid() && Stored(guard.View(), root, t, h, guard.Next()) && over == Over(guard.View())
      requires Ascending(ids) && ids != [] && |Fringe(t)| <= maxPages
      requires Pending(goal, [], t, start, ids, 0, over) && first == Fringe(t)[start].page
      ensures r == Done(goal)
    {
      ghost var j := start;
      var visited, results, current, next: nat := 0, [], first, 0;
      while next < |ids|
        invariant Pending(goal, results, t, j, ids, next, over)
        invariant current == Fringe(t)[j].page && visited <= j
        decreases |Fringe(t)| - j
      {
        visited := visited + 1;
        if visited > maxPages {
          return ChainCycleError;
        }
        var more, at, neighbour := FetchLeaf(current, ids, next, results, t, h, j, goal, over);
        if more.None? {
          return RowUnreadable;
        }
        results := more.value;
        next := at;
        if next >= |ids| || neighbour == 0 {
          break;
        }
        current := neighbour;
        j := j + 1;
      }
      return Done(results);
    }

    /** Fetch from the leaf at position `j` and read its forward link. */
    method FetchLeaf(current: nat, ids: seq<nat>, next: nat, results: seq<Entry>,
                     ghost t: Tree, ghost h: nat, ghost j: nat, ghost goal: seq<Entry>, ghost over: map<nat, OverPage>)
        returns (more: Option<seq<Entry>>, at: nat, neighbour: nat)
      requires guard.Valid() && Stored(guard.View(), root, t, h, guard.Next()) && over == Over(guard.View())
      requires Ascending(ids) && next < |ids|
      requires Pending(goal, results, t, j, ids, next, over) && current == Fringe(t)[j].page
      ensures more.Some? && next <= at <= |ids|
      ensures at == |ids| || neighbour == 0 ==> goal == more.value
      ensures at < |ids| && neighbour != 0 ==>
                Pending(goal, more.value, t, j + 1, ids, at, over) && neighbour == Fringe(t)[j + 1].page
    {
      ChainRead(guard.View(), t, guard.Next(), j);
      LeafReadable(t, over, j);
      TailRows(t, h, j);
      var node := guard.ReadPage(current);
      ghost var rest := Rows(Fringe(t)[j + 1..]);
      var leaf;
      leaf, at := PickFromLeaf(node.value.rows, ids, next, rest, over);
      PendingStep(goal, results, node.value.rows, rest, ids, over);
      more := Some(results + leaf.value);
      neighbour := node.value.next;
      if neighbour == 0 {
        LinkIsNull(t, guard.View(), Asc, j);
      } else {
        LinkIsNext(t, guard.View(), Asc, j);
      }
      if at == |ids| || neighbour == 0 {
        NothingLeft(goal, more.value, rest, ids, over);
      }
    }

    /** The rows of one leaf with the given ids, moving the position in the id list along. */
    method PickFromLeaf(rows: seq<Entry>, ids: seq<nat>, next: nat, ghost rest: seq<Entry>, ghost over: map<nat, OverPage>)
        returns (picked: Option<seq<Entry>>, at: nat)
      requires guard.Valid() && over == Over(guard.View()) && Readable(rows, over)
      requires Ascending(ids) && next <= |ids| && Sorted(rows)
      requires forall e, f :: e in rows && f in rest ==> e.id < f.id
      requires Passed(rows, ids, next) && Passed(rest, ids, next)
      ensures next <= at <= |ids| && Passed(rest, ids, at)
      ensures picked == Some(Whole(Named(rows, ids), over))
    {
      var found: seq<Entry> := [];
      at := next;
      for i := 0 to |rows|
        invariant next <= at <= |ids|
        invariant found == Whole(Named(rows[..i], ids), over)
        invariant Passed(rows[i..], ids, at) && Passed(rest, ids, at)
      {
        var id := rows[i].id;
        ghost var from := at;
        at := SkipBelow(ids, at, id);
        PassedMore(rows, i, rest, ids, from, at);
        NamedStep(rows, i, ids, at);
        if at >= |ids| {
          NamedFinished(rows, i, ids);
          return Some(found), at;
        }
        if ids[at] == id {
          var row := ReassembleRow(rows[i].data);
          if row.Failed? {
            return None, at;
          }
          found := found + [Entry(id, row.bytes)];
          NamedTaken(rows, i, ids, over);
          PassedOne(rows, i, rest, ids, at);
          at := at + 1;
        }
      }
      assert rows[..|rows|] == rows;
      return Some(found), at;
    }

    method SkipBelow(ids: seq<nat>, from: nat, id: nat) returns (at: nat)
      requires from <= |ids|
      ensures from <= at <= |ids| && forall k :: from <= k < at ==> ids[k] < id
      ensures at < |ids| ==> ids[at] >= id
    {
      at := from;
      while at < |ids| && ids[at] < id
        invariant from <= at <= |ids| && forall k :: from <= k < at ==> ids[k] < id
      {
        at := at + 1;
      }
    }

    /** Where a scan starts: the leaf of the bound, or the first leaf in scan direction. */
    method StartLeaf(after: Option<nat>, dir: Dir, ghost t: Tree, ghost h: nat, ghost over: map<nat, OverPage>,
                     ghost limit: nat, ghost keep: Entry -> bool)
        returns (current: nat, ghost j: nat)
      requires guard.Valid() && Stored(guard.View(), root, t, h, guard.Next())
      requires after.Some? ==> after.value < MAX_ID
      ensures j < |Fringe(t)| && current == Fringe(t)[j].page
      ensures Remaining(t, dir, j, after, over) == Candidates(Whole(Listed(TreeRows(t), dir), over), dir, after)
    {
      var page;
      if after.Some? {
        page, j := FindLeafForRowid(after.value, t, h);
        NothingSkipped(t, dir, after.value, j, over);
      } else if dir.Asc? {
        page := FindLeftmostLeaf(t, h);
        j := 0;
        assert Fringe(t)[0..] == Fringe(t);
      } else {
        page := FindRightmostLeaf(t, h);
        j := |Fringe(t)| - 1;
        assert Fringe(t)[..j + 1] == Fringe(t);
      }
      current := page.value;
    }

    /** One leaf of a scan, `rest` being the candidates still to come on later leaves. */
    method ScanLeaf(rows: seq<Entry>, after: Option<nat>, dir: Dir, limit: nat, keep: Entry -> bool, acc: seq<Entry>,
                    ghost rest: seq<Entry>, ghost over: map<nat, OverPage>)
        returns (r: LeafScan)
      requires guard.Valid() && over == Over(guard.View()) && Readable(rows, over) && limit > 0
      ensures var b := Collect(Candidates(Whole(Listed(rows, dir), over), dir, after) + rest, limit, keep, acc);
              match r
              case Full(batch) => batch == b
              case More(more) => b == Collect(rest, limit, keep, more)
              case BadRow => false
    {
      var results := acc;
      ghost var list := Whole(Listed(rows, dir), over);
      ghost var left := Candidates(list, dir, after) + rest;
      ghost var target := Collect(left, limit, keep, acc);
      assert list[0..] == list;
      for i := 0 to |rows|
        invariant left == Candidates(list[i..], dir, after) + rest && Collect(left, limit, keep, results) == target
      {
        var e := rows[if dir.Asc? then i else |rows| - 1 - i];
        assert list[i] == WholeRow(e, over);
        CollectOne(list, i, dir, after, rest, limit, keep, results);
        left := Candidates(list[i + 1..], dir, after) + rest;
        if Beyond(dir, after, e.id) {
          if |results| >= limit {
            return Full(Batch(results, Some(results[|results| - 1].id)));
          }
          var row := ReassembleRow(e.data);
          if row.Failed? {
            return BadRow;
          }
          if keep(Entry(e.id, row.bytes)) {
            results := results + [Entry(e.id, row.bytes)];
          }
        }
      }
      EmptyFront(Candidates(list[|rows|..], dir, after), rest);
      return More(results);
    }

    method ReadRows(rows: seq<Entry>, ghost over: map<nat, OverPage>) returns (r: Option<seq<Entry>>)
      requires guard.Valid() && over == Over(guard.View())
      ensures Readable(rows, over) ==> r == Some(Whole(rows, over))
    {
      var whole := [];
      for i := 0 to |rows|
        invariant whole == Whole(rows, over)[..i]
      {
        var row := ReassembleRow(rows[i].data);
        if row.Failed? {
          return None;
        }
        whole := whole + [Entry(rows[i].id, row.bytes)];
      }
      assert Whole(rows, over)[..|rows|] == Whole(rows, over);
      return Some(whole);
    }

    method Search(id: nat, ghost t: Tree, ghost h: nat, ghost over: map<nat, OverPage>) returns (r: Answer)
      requires guard.Valid() && Stored(guard.View(), root, t, h, guard.Next()) && id < MAX_ID
      requires over == Over(guard.View())
      ensures r == DoSearch(State(t, guard.Next(), over), id)
    {
      var page, j := FindLeafForRowid(id, t, h);
      ChainRead(guard.View(), t, guard.Next(), j);
      LeafSorted(t, h, j);
      var leaf := guard.ReadPage(page.value);
      var pos, found := FindInsertionPoint(leaf.value.rows, id);
      if !found {
        return Got(NotFound);
      }
      var row := ReassembleRow(leaf.value.rows[pos].data);
      match row
      case Row(bytes) => return Got(Found(bytes));
      case Failed(_) => return Unreadable;
    }

    /** Follow the overflow chain of a row, guarded against cycles. */
    method ReassembleRow(raw: seq<Byte>) returns (r: Read)
      requires guard.Valid()
      ensures r == Reassemble(raw, Over(guard.View()))
    {
      if !HasOverflow(raw) {
        return Row(raw);
      }
      var remaining := TrailerRemaining(raw);
      var inlineLen := |raw| - OVERFLOW_TRAILER_SIZE;
      if inlineLen + remaining > MAX_REASSEMBLE_SIZE {
        return Failed(ClaimsTooMuch);
      }
      ghost var over := Over(guard.View());
      var max := remaining / OVERFLOW_PAYLOAD_MAX + 2;
      var tail: seq<Byte>, current: nat, left: nat, iterations: nat := [], TrailerFirst(raw), remaining, 0;
      while current != 0 && left > 0
        invariant iterations <= max
        invariant ReadChain(over, TrailerFirst(raw), remaining, max) == Prepend(tail, ReadChain(over, current, left, max - iterations))
        decreases max - iterations
      {
        iterations := iterations + 1;
        if iterations > max {
          return Failed(ChainCycle);
        }
        var page := guard.ReadPage(current);
        if page.None? || !page.value.OverflowPage? {
          return Failed(MissingPage);
        }
        var payload := page.value.over.payload;
        var take := if |payload| < left then |payload| else left;
        PrependTwice(tail, payload[..take], ReadChain(over, page.value.over.next, left - take, max - iterations));
        tail := tail + payload[..take];
        left := left - take;
        current := page.value.over.next;
      }
      assert tail + [] == tail;
      return Row(raw[..inlineLen] + tail);
    }
  }

  function Prepend(bytes: seq<Byte>, r: Read): Read {
    match r
    case Failed(e) => Failed(e)
    case Row(rest) => Row(bytes + rest)
  }

  lemma PrependTwice(a: seq<Byte>, b: seq<Byte>, r: Read)
    ensures Prepend(a, Prepend(b, r)) == Prepend(a + b, r)
  {
    if r.Row? { assert a + (b + r.bytes) == a + b + r.bytes; }
  }
}
