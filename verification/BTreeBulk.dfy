/** Bulk deletes and updates: one walk along the leaf chain, each changed leaf rewritten once. */
module BTreeBulk {
  import opened Seqs
  import opened Bytes
  import opened Overflow
  import opened LeafSplit
  import opened BTree
  import opened BTreeShape
  import opened BTreeLeaves
  import opened BTreePages
  import opened BTreeStored
  import opened BTreeRuns
  import opened BTreeWriter
  import opened BTreeReader
  import opened Cursor
  import opened Store

  /** A rewrite of the rows of each leaf. */
  type Rewrite = seq<Entry> -> seq<Entry>

  function MapLeaves(t: Tree, g: Rewrite): Tree {
    match t
    case Leaf(x) => Leaf(LeafRec(x.page, g(x.rows)))
    case Branch(p, keys, kids) =>
      Branch(p, keys, seq(|kids|, i requires 0 <= i < |kids| => MapLeaves(kids[i], g)))
  }

  function MapFringe(f: seq<LeafRec>, g: Rewrite): (s: seq<LeafRec>)
    ensures |s| == |f|
  {
    seq(|f|, i requires 0 <= i < |f| => LeafRec(f[i].page, g(f[i].rows)))
  }

  function MapKids(kids: seq<Tree>, g: Rewrite): (s: seq<Tree>)
    ensures |s| == |kids|
  {
    seq(|kids|, i requires 0 <= i < |kids| => MapLeaves(kids[i], g))
  }

  lemma {:induction false} MapLeavesFringe(t: Tree, g: Rewrite)
    ensures Fringe(MapLeaves(t, g)) == MapFringe(Fringe(t), g)
    decreases t, 1
  {
    if t.Branch? {
      MapKidsFringe(t.kids, g);
      assert MapLeaves(t, g).kids == MapKids(t.kids, g);
    }
  }

  lemma {:induction false} MapKidsFringe(kids: seq<Tree>, g: Rewrite)
    ensures Fringes(MapKids(kids, g)) == MapFringe(Fringes(kids), g)
    decreases kids, 0
  {
    if kids != [] {
      MapLeavesFringe(kids[0], g);
      MapKidsFringe(kids[1..], g);
      assert MapKids(kids, g)[1..] == MapKids(kids[1..], g);
    }
  }

  predicate IdsWithin(rows: seq<Entry>, others: seq<Entry>) {
    forall i :: 0 <= i < |rows| ==> HasId(others, rows[i].id)
  }

  /** A rewrite that keeps leaves sorted, within range, and within a page. */
  ghost predicate Keeps(g: Rewrite) {
    forall rows: seq<Entry> | Sorted(rows) && Fits(Sizes(rows)) ::
      Sorted(g(rows)) && Fits(Sizes(g(rows))) && IdsWithin(g(rows), rows)
  }

  lemma KeepsRange(g: Rewrite, rows: seq<Entry>, lo: nat, hi: nat)
    requires Keeps(g) && Sorted(rows) && Fits(Sizes(rows)) && InRange(rows, lo, hi)
    ensures InRange(g(rows), lo, hi)
  {
    forall i | 0 <= i < |g(rows)| ensures lo <= g(rows)[i].id < hi {
      assert HasId(rows, g(rows)[i].id);
    }
  }

  lemma {:induction false} MapLeavesWf(t: Tree, g: Rewrite, h: nat, lo: nat, hi: nat, cap: nat, min: nat)
    requires Wf(t, h, lo, hi, cap, min) && Keeps(g)
    ensures Wf(MapLeaves(t, g), h, lo, hi, cap, min)
    decreases t
  {
    match t
    case Leaf(x) => KeepsRange(g, x.rows, lo, hi);
    case Branch(p, keys, kids) =>
      forall i | 0 <= i < |kids|
        ensures Wf(MapLeaves(kids[i], g), h - 1, Bound(keys, lo, hi, i), Bound(keys, lo, hi, i + 1), cap, MinKeys(cap))
      {
        MapLeavesWf(kids[i], g, h - 1, Bound(keys, lo, hi, i), Bound(keys, lo, hi, i + 1), cap, MinKeys(cap));
      }
  }

  lemma {:induction false} MapLeavesUses(t: Tree, g: Rewrite, q: nat)
    ensures Uses(MapLeaves(t, g), q) == Uses(t, q)
    decreases t, 1
  {
    if t.Branch? {
      MapKidsUses(t.kids, g, q);
      assert MapLeaves(t, g).kids == MapKids(t.kids, g);
    }
  }

  lemma {:induction false} MapKidsUses(kids: seq<Tree>, g: Rewrite, q: nat)
    ensures UsesAll(MapKids(kids, g), q) == UsesAll(kids, q)
    decreases kids, 0
  {
    if kids != [] {
      MapLeavesUses(kids[0], g, q);
      MapKidsUses(kids[1..], g, q);
      assert MapKids(kids, g)[1..] == MapKids(kids[1..], g);
    }
  }

  /** Leaf pages rewritten, everything that is not a leaf as it was. */
  ghost predicate Rewritten(v: Pages, w: Pages, f: seq<LeafRec>, g: Rewrite) {
    && (forall q :: q in v && !v[q].LeafPage? ==> q in w && w[q] == v[q])
    && (forall i :: 0 <= i < |f| ==>
         f[i].page in v && v[f[i].page].LeafPage? && f[i].page in w && w[f[i].page] == v[f[i].page].(rows := g(f[i].rows)))
  }

  lemma {:induction false} MapLeavesHolds(v: Pages, w: Pages, t: Tree, g: Rewrite)
    requires Holds(v, t) && Rewritten(v, w, Fringe(t), g)
    ensures Holds(w, MapLeaves(t, g))
    decreases t
  {
    match t
    case Leaf(x) => assert Fringe(t)[0] == x;
    case Branch(p, keys, kids) =>
      forall i | 0 <= i < |kids| ensures Holds(w, MapLeaves(kids[i], g)) {
        FringesAround(kids, i);
        var b := Fringes(kids[..i]);
        assert forall j :: 0 <= j < |Fringe(kids[i])| ==> Fringe(t)[|b| + j] == Fringe(kids[i])[j];
        MapLeavesHolds(v, w, kids[i], g);
      }
      assert Roots(MapLeaves(t, g).kids) == Roots(kids);
  }

  // ----- the two rewrites -----

  /** Rows that do not satisfy the predicate. */
  function Dropped(rows: seq<Entry>, pred: seq<Byte> -> bool): seq<Entry> {
    Passing(rows, (e: Entry) => !pred(e.data))
  }

  function Matching(rows: seq<Entry>, pred: seq<Byte> -> bool): seq<Entry> {
    Passing(rows, (e: Entry) => pred(e.data))
  }

  /** Matching rows updated from their whole bytes. */
  function Replaced(rows: seq<Entry>, pred: seq<Byte> -> bool, upd: seq<Byte> -> seq<Byte>, over: map<nat, OverPage>): (s: seq<Entry>)
    ensures |s| == |rows|
  {
    seq(|rows|, i requires 0 <= i < |rows| =>
      if pred(rows[i].data) then Entry(rows[i].id, upd(WholeRow(rows[i], over).data)) else rows[i])
  }

  /** In-place update of a leaf happens as a whole or not at all. */
  function UpdatedLeaf(rows: seq<Entry>, pred: seq<Byte> -> bool, upd: seq<Byte> -> seq<Byte>, over: map<nat, OverPage>): seq<Entry> {
    var r := Replaced(rows, pred, upd, over);
    if Fits(Sizes(r)) then r else rows
  }

  lemma {:induction false} DroppedElements(rows: seq<Entry>, pred: seq<Byte> -> bool)
    ensures forall e :: e in Dropped(rows, pred) <==> e in rows && !pred(e.data)
  {
    if rows != [] {
      DroppedElements(rows[1..], pred);
      assert rows == [rows[0]] + rows[1..];
    }
  }

  lemma {:induction false} DroppedSorted(rows: seq<Entry>, pred: seq<Byte> -> bool)
    requires Sorted(rows)
    ensures Sorted(Dropped(rows, pred))
  {
    if rows != [] {
      DroppedSorted(rows[1..], pred);
      DroppedElements(rows[1..], pred);
      var rest := Dropped(rows[1..], pred);
      forall i | 0 <= i < |rest| ensures rows[0].id < rest[i].id { assert rest[i] in rows[1..]; }
    }
  }

  lemma {:induction false} DroppedSize(rows: seq<Entry>, pred: seq<Byte> -> bool)
    ensures |Dropped(rows, pred)| <= |rows| && Sum(Sizes(Dropped(rows, pred))) <= Sum(Sizes(rows))
  {
    if rows != [] {
      DroppedSize(rows[1..], pred);
      assert Sizes(rows)[1..] == Sizes(rows[1..]);
      if !pred(rows[0].data) {
        assert Sizes(Dropped(rows, pred))[1..] == Sizes(Dropped(rows[1..], pred));
      } else {
        assert Dropped(rows, pred) == Dropped(rows[1..], pred);
      }
    }
  }

  lemma DroppedIds(rows: seq<Entry>, pred: seq<Byte> -> bool)
    ensures IdsWithin(Dropped(rows, pred), rows)
  {
    DroppedElements(rows, pred);
    var d := Dropped(rows, pred);
    forall i | 0 <= i < |d| ensures HasId(rows, d[i].id) { assert d[i] in rows; }
  }

  lemma DropRewriteKeeps(pred: seq<Byte> -> bool)
    ensures Keeps(DropRows(pred))
  {
    forall rows: seq<Entry> | Sorted(rows) && Fits(Sizes(rows))
      ensures var d := Dropped(rows, pred);
              Sorted(d) && Fits(Sizes(d)) && IdsWithin(d, rows)
    {
      DroppedSorted(rows, pred);
      DroppedSize(rows, pred);
      DroppedIds(rows, pred);
    }
  }

  lemma UpdateRewriteKeeps(pred: seq<Byte> -> bool, upd: seq<Byte> -> seq<Byte>, over: map<nat, OverPage>)
    ensures Keeps(UpdateRows(pred, upd, over))
  {
    forall rows: seq<Entry> | Sorted(rows) && Fits(Sizes(rows))
      ensures var d := UpdatedLeaf(rows, pred, upd, over);
              Sorted(d) && Fits(Sizes(d)) && IdsWithin(d, rows)
    {
      var r := Replaced(rows, pred, upd, over);
      assert forall i :: 0 <= i < |rows| ==> r[i].id == rows[i].id;
    }
  }

  datatype Change = Change(id: nat, before: seq<Byte>, after: seq<Byte>)

  function ChangesOf(rows: seq<Entry>, upd: seq<Byte> -> seq<Byte>, over: map<nat, OverPage>): (s: seq<Change>)
    ensures |s| == |rows|
  {
    seq(|rows|, i requires 0 <= i < |rows| =>
      Change(rows[i].id, WholeRow(rows[i], over).data, upd(WholeRow(rows[i], over).data)))
  }

  function ChangesIn(rows: seq<Entry>, pred: seq<Byte> -> bool, upd: seq<Byte> -> seq<Byte>, over: map<nat, OverPage>): seq<Change> {
    ChangesOf(Matching(rows, pred), upd, over)
  }

  predicate FitsUpdated(rows: seq<Entry>, pred: seq<Byte> -> bool, upd: seq<Byte> -> seq<Byte>, over: map<nat, OverPage>) {
    Fits(Sizes(Replaced(rows, pred, upd, over)))
  }

  /** The changes on leaves that are updated in place, and those on the other leaves. */
  function InPlace(f: seq<LeafRec>, pred: seq<Byte> -> bool, upd: seq<Byte> -> seq<Byte>, over: map<nat, OverPage>): seq<Change> {
    if f == [] then []
    else
      var x := f[|f| - 1].rows;
      InPlace(f[..|f| - 1], pred, upd, over) + (if FitsUpdated(x, pred, upd, over) then ChangesIn(x, pred, upd, over) else [])
  }

  function Spilled(f: seq<LeafRec>, pred: seq<Byte> -> bool, upd: seq<Byte> -> seq<Byte>, over: map<nat, OverPage>): seq<Change> {
    if f == [] then []
    else
      var x := f[|f| - 1].rows;
      Spilled(f[..|f| - 1], pred, upd, over) + (if FitsUpdated(x, pred, upd, over) then [] else ChangesIn(x, pred, upd, over))
  }

  function UpdateRows(pred: seq<Byte> -> bool, upd: seq<Byte> -> seq<Byte>, over: map<nat, OverPage>): Rewrite {
    rows => UpdatedLeaf(rows, pred, upd, over)
  }

  lemma UpdatedStep(f: seq<LeafRec>, j: nat, pred: seq<Byte> -> bool, upd: seq<Byte> -> seq<Byte>, over: map<nat, OverPage>)
    requires j < |f|
    ensures var changes, fits := ChangesIn(f[j].rows, pred, upd, over), FitsUpdated(f[j].rows, pred, upd, over);
            && InPlace(f[..j + 1], pred, upd, over) == InPlace(f[..j], pred, upd, over) + (if fits then changes else [])
            && Spilled(f[..j + 1], pred, upd, over) == Spilled(f[..j], pred, upd, over) + (if fits then [] else changes)
  {
    assert f[..j + 1][..j] == f[..j];
  }

  lemma ChangeStep(rows: seq<Entry>, i: nat, pred: seq<Byte> -> bool, upd: seq<Byte> -> seq<Byte>, over: map<nat, OverPage>)
    requires i < |rows|
    ensures var whole := WholeRow(rows[i], over).data;
            ChangesIn(rows[..i + 1], pred, upd, over) ==
            ChangesIn(rows[..i], pred, upd, over) + (if pred(rows[i].data) then [Change(rows[i].id, whole, upd(whole))] else [])
  {
    CutAround(rows, i);
    PassingConcat(rows[..i], [rows[i]], (e: Entry) => pred(e.data));
    PassingOne(rows[i], (e: Entry) => pred(e.data));
  }

  lemma NoChanges(rows: seq<Entry>, pred: seq<Byte> -> bool, upd: seq<Byte> -> seq<Byte>, over: map<nat, OverPage>)
    requires ChangesIn(rows, pred, upd, over) == []
    ensures Replaced(rows, pred, upd, over) == rows
  {
    PassingNone(rows, (e: Entry) => pred(e.data));
  }

  lemma {:induction false} PassingNone(rows: seq<Entry>, keep: Entry -> bool)
    requires Passing(rows, keep) == []
    ensures forall i :: 0 <= i < |rows| ==> !keep(rows[i])
  {
    if rows != [] { PassingNone(rows[1..], keep); }
  }

  lemma LeafFits(t: Tree, h: nat, j: nat)
    requires Wf(t, h, 0, MAX_ID, ROW_BRANCH_KEYS, 1) && j < |Fringe(t)|
    ensures Fits(Sizes(Fringe(t)[j].rows))
  {
    AllLeavesFit(t, h, 0, MAX_ID, ROW_BRANCH_KEYS, 1);
  }

  lemma {:induction false} AllLeavesFit(t: Tree, h: nat, lo: nat, hi: nat, cap: nat, min: nat)
    requires Wf(t, h, lo, hi, cap, min)
    ensures forall x :: x in Fringe(t) ==> Fits(Sizes(x.rows))
    decreases t, 1
  {
    if t.Branch? {
      AllKidsFit(t, |t.kids|, h, lo, hi, cap, min);
      assert t.kids[..|t.kids|] == t.kids;
    }
  }

  lemma {:induction false} AllKidsFit(t: Tree, n: nat, h: nat, lo: nat, hi: nat, cap: nat, min: nat)
    requires t.Branch? && Wf(t, h, lo, hi, cap, min) && n <= |t.kids|
    ensures forall x :: x in Fringes(t.kids[..n]) ==> Fits(Sizes(x.rows))
    decreases t, 0, n
  {
    if n > 0 {
      AllKidsFit(t, n - 1, h, lo, hi, cap, min);
      AllLeavesFit(t.kids[n - 1], h - 1, Bound(t.keys, lo, hi, n - 1), Bound(t.keys, lo, hi, n), cap, MinKeys(cap));
      FringesConcat(t.kids[..n - 1], [t.kids[n - 1]]);
      FringeOne(t.kids[n - 1]);
      assert t.kids[..n] == t.kids[..n - 1] + [t.kids[n - 1]];
    }
  }

  // ----- the walks -----

  /** The first `j` leaves rewritten, nothing else touched. */
  ghost predicate RewrittenUpTo(v: Pages, w: Pages, f: seq<LeafRec>, j: nat, g: Rewrite)
    requires j <= |f|
  {
    && LeavesHeld(v, f)
    && (forall q :: q in v <==> q in w)
    && (forall i :: 0 <= i < j ==> w[f[i].page] == v[f[i].page].(rows := g(f[i].rows)))
    && (forall q :: q in v && q !in LeafPages(f[..j]) ==> w[q] == v[q])
  }

  lemma RewriteStep(v: Pages, w: Pages, f: seq<LeafRec>, j: nat, g: Rewrite, page: Page)
    requires j < |f| && NoDup(LeafPages(f)) && RewrittenUpTo(v, w, f, j, g)
    requires f[j].page in v && v[f[j].page].LeafPage? && page == v[f[j].page].(rows := g(f[j].rows))
    ensures RewrittenUpTo(v, w[f[j].page := page], f, j + 1, g)
  {
    assert LeafPages(f[..j + 1]) == LeafPages(f[..j]) + [f[j].page];
    forall i | 0 <= i < j ensures f[i].page != f[j].page {
      assert LeafPages(f)[i] != LeafPages(f)[j];
    }
  }

  /** A leaf whose rows the rewrite does not change counts as rewritten. */
  lemma RewriteIdle(v: Pages, w: Pages, f: seq<LeafRec>, j: nat, g: Rewrite)
    requires j < |f| && NoDup(LeafPages(f)) && RewrittenUpTo(v, w, f, j, g) && g(f[j].rows) == f[j].rows
    ensures RewrittenUpTo(v, w, f, j + 1, g)
  {
    NotYet(v, w, f, j, g);
    RewriteStep(v, w, f, j, g, v[f[j].page]);
    assert w[f[j].page := v[f[j].page]] == w;
  }

  lemma NotYet(v: Pages, w: Pages, f: seq<LeafRec>, j: nat, g: Rewrite)
    requires j < |f| && NoDup(LeafPages(f)) && RewrittenUpTo(v, w, f, j, g)
    ensures f[j].page in v && w[f[j].page] == v[f[j].page] && v[f[j].page].LeafPage? && v[f[j].page].rows == f[j].rows
  {
    forall i | 0 <= i < j ensures LeafPages(f[..j])[i] != f[j].page {
      assert LeafPages(f)[i] != LeafPages(f)[j];
    }
  }

  /** After the walk the pages hold the rewritten tree on the same chain. */
  lemma WalkDone(v: Pages, w: Pages, t: Tree, g: Rewrite, next: nat)
    requires Holds(v, t) && Owned(t, next) && Linked(v, LeafPages(Fringe(t)))
    requires RewrittenUpTo(v, w, Fringe(t), |Fringe(t)|, g)
    ensures Holds(w, MapLeaves(t, g)) && Linked(w, LeafPages(Fringe(MapLeaves(t, g))))
    ensures forall q :: q in v && !v[q].LeafPage? ==> q in w && w[q] == v[q]
  {
    var f, ps := Fringe(t), LeafPages(Fringe(t));
    assert f[..|f|] == f;
    forall q | q in v && !v[q].LeafPage? ensures q !in ps {
      assert forall i :: 0 <= i < |ps| ==> ps[i] == f[i].page && v[f[i].page].LeafPage?;
    }
    MapLeavesHolds(v, w, t, g);
    MapLeavesFringe(t, g);
    assert LeafPages(MapFringe(f, g)) == ps;
    forall i | 0 <= i < |ps|
      ensures ps[i] in w && w[ps[i]].LeafPage? && w[ps[i]].next == v[ps[i]].next && w[ps[i]].prev == v[ps[i]].prev
    {
      assert ps[i] == f[i].page;
    }
    ChainKept(v, w, ps);
  }

  function DropRows(pred: seq<Byte> -> bool): Rewrite {
    rows => Dropped(rows, pred)
  }

  /** The pages hold the tree with every leaf rewritten. */
  ghost predicate HoldsMapped(w: Pages, t: Tree, g: Rewrite) {
    Holds(w, MapLeaves(t, g)) && Linked(w, LeafPages(Fringe(MapLeaves(t, g))))
  }

  lemma WalkStarts(t: Tree, v: Pages, next: nat, g: Rewrite)
    requires Holds(v, t) && Owned(t, next)
    ensures RewrittenUpTo(v, v, Fringe(t), 0, g) && |Fringe(t)| <= next
    ensures Rows(Fringe(t)[..0]) == []
  {
    FewLeaves(t, next);
    FringeHeld(v, t);
  }

  lemma WalkEnds(t: Tree, v: Pages, w: Pages, next: nat, g: Rewrite)
    requires Holds(v, t) && Owned(t, next) && Linked(v, LeafPages(Fringe(t)))
    requires RewrittenUpTo(v, w, Fringe(t), |Fringe(t)|, g)
    ensures HoldsMapped(w, t, g) && Over(w) == Over(v) && Frame(v, w, t)
  {
    WalkDone(v, w, t, g, next);
    OverKept(v, w, Fringe(t), |Fringe(t)|, g);
    var f := Fringe(t);
    assert f[..|f|] == f;
    forall q | q in LeafPages(f) ensures Uses(t, q) > 0 {
      var i :| 0 <= i < |f| && LeafPages(f)[i] == q;
      LeafIsNode(t, i);
    }
  }

  /** Leaf `j` of a walk over the pages `v`: on its page, linked to its neighbours, readable and within a page. */
  ghost predicate LeafKnown(v: Pages, f: seq<LeafRec>, j: nat, over: map<nat, OverPage>)
    requires j < |f|
  {
    && f[j].page in v && v[f[j].page] == LeafPage(f[j].rows, At(LeafPages(f), j + 1), At(LeafPages(f), j - 1))
    && Readable(f[j].rows, over) && Fits(Sizes(f[j].rows))
  }

  /** Everything a walk needs to know about the leaves it will meet. */
  ghost predicate Charted(v: Pages, f: seq<LeafRec>, over: map<nat, OverPage>) {
    && NoDup(LeafPages(f)) && 0 !in LeafPages(f) && Over(v) == over
    && forall j: nat :: j < |f| ==> LeafKnown(v, f, j, over)
  }

  lemma ChartLeaves(t: Tree, root: nat, h: nat, v: Pages, next: nat, over: map<nat, OverPage>)
    requires Stored(v, root, t, h, next) && over == Over(v)
    ensures Charted(v, Fringe(t), over)
  {
    LeavesDistinct(t, next);
    forall j: nat | j < |Fringe(t)| ensures LeafKnown(v, Fringe(t), j, over) {
      ChainRead(v, t, next, j);
      LeafReadable(t, over, j);
      LeafFits(t, h, j);
    }
  }

  /** At leaf `j` the walk finds the old page, and the overflow pages as they were. */
  lemma AtLeaf(v: Pages, w: Pages, f: seq<LeafRec>, j: nat, g: Rewrite, over: map<nat, OverPage>)
    requires j < |f| && Charted(v, f, over) && RewrittenUpTo(v, w, f, j, g)
    ensures f[j].page in w && w[f[j].page] == v[f[j].page] && Over(w) == over && LeafKnown(v, f, j, over)
  {
    assert LeafKnown(v, f, j, over);
    NotYet(v, w, f, j, g);
    OverKept(v, w, f, j, g);
  }

  /** A null link after leaf `j` means it was the last. */
  lemma LastLeaf(v: Pages, f: seq<LeafRec>, j: nat, over: map<nat, OverPage>)
    requires j < |f| && Charted(v, f, over)
    ensures f[j].page in v && v[f[j].page].LeafPage?
    ensures if v[f[j].page].next == 0 then j + 1 == |f| && f[..j + 1] == f
            else j + 1 < |f| && v[f[j].page].next == f[j + 1].page
  {
    assert LeafKnown(v, f, j, over);
    if j + 1 < |f| { assert LeafPages(f)[j + 1] in LeafPages(f); }
  }

  datatype BulkOutcome<T> = Walked(result: T) | Broken

  class BulkWriter {
    const guard: WriteGuard
    const root: nat

    constructor (guard: WriteGuard, root: nat)
      ensures this.guard == guard && this.root == root
    {
      this.guard, this.root := guard, root;
    }

    /** The positions of matching rows, and those rows whole. */
    method MatchRows(rows: seq<Entry>, pred: seq<Byte> -> bool, ghost over: map<nat, OverPage>)
        returns (kept: seq<Entry>, hit: Option<seq<Entry>>)
      requires guard.Valid() && over == Over(guard.View()) && Readable(rows, over)
      ensures kept == Dropped(rows, pred) && hit == Some(Whole(Matching(rows, pred), over))
    {
      var reader := new BTreeReader(guard, root);
      var found: seq<Entry> := [];
      kept := [];
      for i := 0 to |rows|
        invariant kept == Dropped(rows[..i], pred)
        invariant found == Whole(Matching(rows[..i], pred), over)
      {
        MatchStep(rows, i, pred, over);
        if pred(rows[i].data) {
          var row := reader.ReassembleRow(rows[i].data);
          if row.Failed? {
            return kept, None;
          }
          found := found + [Entry(rows[i].id, row.bytes)];
        } else {
          kept := kept + [rows[i]];
        }
      }
      assert rows[..|rows|] == rows;
      hit := Some(found);
    }

    /** The leftmost leaf, and the most leaves a chain can have. */
    method StartWalk(ghost t: Tree, ghost h: nat, ghost g: Rewrite) returns (first: nat, maxPages: nat)
      requires guard.Valid() && Stored(guard.View(), root, t, h, guard.Next())
      ensures 0 < |Fringe(t)| <= maxPages && first == Fringe(t)[0].page
      ensures RewrittenUpTo(guard.View(), guard.View(), Fringe(t), 0, g)
      ensures Charted(guard.View(), Fringe(t), Over(guard.View()))
    {
      var reader := new BTreeReader(guard, root);
      var leaf := reader.FindLeftmostLeaf(t, h);
      WalkStarts(t, guard.View(), guard.Next(), g);
      ChartLeaves(t, root, h, guard.View(), guard.Next(), Over(guard.View()));
      first, maxPages := leaf.value, guard.file.numPages + guard.newPageCount;
    }

    /** Delete every row whose stored bytes satisfy the predicate; return the rows deleted. */
    method DeleteMatching(pred: seq<Byte> -> bool, ghost t: Tree, ghost h: nat, ghost over: map<nat, OverPage>)
        returns (r: BulkOutcome<seq<Entry>>)
      requires guard.Valid() && Stored(guard.View(), root, t, h, guard.Next()) && over == Over(guard.View())
      modifies guard
      ensures guard.Valid() && guard.Next() == old(guard.Next())
      ensures r == Walked(Whole(Matching(TreeRows(t), pred), over))
      ensures HoldsMapped(guard.View(), t, DropRows(pred)) && Over(guard.View()) == over
      ensures Frame(old(guard.View()), guard.View(), t)
    {
      ghost var v := guard.View();
      var first, maxPages := StartWalk(t, h, DropRows(pred));
      r := DeleteWalk(first, maxPages, pred, Fringe(t), v, over);
      WalkEnds(t, v, guard.View(), guard.Next(), DropRows(pred));
    }

    method DeleteWalk(first: nat, maxPages: nat, pred: seq<Byte> -> bool, ghost f: seq<LeafRec>, ghost v: Pages, ghost over: map<nat, OverPage>)
        returns (r: BulkOutcome<seq<Entry>>)
      requires guard.Valid() && 0 < |f| <= maxPages && first == f[0].page
      requires Charted(v, f, over) && RewrittenUpTo(v, guard.View(), f, 0, DropRows(pred))
      modifies guard
      ensures guard.Valid() && guard.Next() == old(guard.Next())
      ensures r == Walked(Whole(Matching(Rows(f), pred), over))
      ensures RewrittenUpTo(v, guard.View(), f, |f|, DropRows(pred))
    {
      ghost var j: nat := 0;
      var visited, deleted, current := 0, [], first;
      while true
        invariant j < |f| && current == f[j].page && visited == j
        invariant guard.Valid() && guard.Next() == old(guard.Next())
        invariant RewrittenUpTo(v, guard.View(), f, j, DropRows(pred))
        invariant deleted == Whole(Matching(Rows(f[..j]), pred), over)
        decreases |f| - j
      {
        visited := visited + 1;
        if visited > maxPages {
          return Broken;
        }
        MatchingStep(f, j, pred, over);
        var hit, next := DeleteFromLeafAt(current, pred, f, v, j, over);
        if hit.None? {
          return Broken;
        }
        deleted := deleted + hit.value;
        LastLeaf(v, f, j, over);
        j := j + 1;
        if next == 0 {
          return Walked(deleted);
        }
        current := next;
      }
    }

    method DeleteFromLeafAt(current: nat, pred: seq<Byte> -> bool, ghost f: seq<LeafRec>, ghost v: Pages, ghost j: nat,
                            ghost over: map<nat, OverPage>)
        returns (hit: Option<seq<Entry>>, next: nat)
      requires guard.Valid() && j < |f| && current == f[j].page
      requires Charted(v, f, over) && RewrittenUpTo(v, guard.View(), f, j, DropRows(pred))
      modifies guard
      ensures guard.Valid() && guard.Next() == old(guard.Next())
      ensures hit == Some(Whole(Matching(f[j].rows, pred), over)) && current in v && v[current].LeafPage? && next == v[current].next
      ensures RewrittenUpTo(v, guard.View(), f, j + 1, DropRows(pred))
    {
      AtLeaf(v, guard.View(), f, j, DropRows(pred), over);
      var page := guard.ReadPage(current);
      var kept;
      kept, hit := MatchRows(page.value.rows, pred, over);
      next := page.value.next;
      if hit.value == [] { NoneMatching(page.value.rows, pred, over); }
      RewriteLeaf(current, page.value, kept, hit.value != [], f, v, j, DropRows(pred));
    }

    /** Replace the rows of one leaf if they changed; its links stay. */
    method RewriteLeaf(current: nat, page: Page, rows: seq<Entry>, changed: bool,
                       ghost f: seq<LeafRec>, ghost v: Pages, ghost j: nat, ghost g: Rewrite)
      requires guard.Valid() && j < |f| && current == f[j].page && NoDup(LeafPages(f))
      requires RewrittenUpTo(v, guard.View(), f, j, g)
      requires current in v && v[current] == page && page.LeafPage? && page.rows == f[j].rows
      requires rows == g(f[j].rows) && (!changed ==> rows == f[j].rows)
      modifies guard
      ensures guard.Valid() && guard.Next() == old(guard.Next())
      ensures RewrittenUpTo(v, guard.View(), f, j + 1, g)
    {
      ghost var w := guard.View();
      if changed {
        RewriteStep(v, w, f, j, g, LeafPage(rows, page.next, page.prev));
        guard.Rewrite(current, LeafPage(rows, page.next, page.prev));
      } else {
        RewriteIdle(v, w, f, j, g);
      }
    }

    /** Matching rows with their replacements, and the leaf with the replacements in. */
    method ReplaceRows(rows: seq<Entry>, pred: seq<Byte> -> bool, upd: seq<Byte> -> seq<Byte>, ghost over: map<nat, OverPage>)
        returns (replaced: seq<Entry>, changes: Option<seq<Change>>)
      requires guard.Valid() && over == Over(guard.View()) && Readable(rows, over)
      ensures replaced == Replaced(rows, pred, upd, over) && changes == Some(ChangesIn(rows, pred, upd, over))
    {
      var reader := new BTreeReader(guard, root);
      var found: seq<Change> := [];
      replaced := [];
      for i := 0 to |rows|
        invariant replaced == Replaced(rows, pred, upd, over)[..i]
        invariant found == ChangesIn(rows[..i], pred, upd, over)
      {
        ChangeStep(rows, i, pred, upd, over);
        if pred(rows[i].data) {
          var row := reader.ReassembleRow(rows[i].data);
          if row.Failed? {
            return replaced, None;
          }
          found := found + [Change(rows[i].id, row.bytes, upd(row.bytes))];
          replaced := replaced + [Entry(rows[i].id, upd(row.bytes))];
        } else {
          replaced := replaced + [rows[i]];
        }
      }
      assert rows[..|rows|] == rows;
      changes := Some(found);
    }

    /** One leaf: all its replacements in place if the page still fits, else none of them. */
    method UpdateLeafAt(current: nat, pred: seq<Byte> -> bool, upd: seq<Byte> -> seq<Byte>,
                        ghost f: seq<LeafRec>, ghost v: Pages, ghost j: nat, ghost over: map<nat, OverPage>)
        returns (changes: Option<seq<Change>>, inPlace: bool, next: nat)
      requires guard.Valid() && j < |f| && current == f[j].page
      requires Charted(v, f, over) && RewrittenUpTo(v, guard.View(), f, j, UpdateRows(pred, upd, over))
      modifies guard
      ensures guard.Valid() && guard.Next() == old(guard.Next())
      ensures changes == Some(ChangesIn(f[j].rows, pred, upd, over))
      ensures current in v && v[current].LeafPage? && next == v[current].next
      ensures inPlace == FitsUpdated(f[j].rows, pred, upd, over)
      ensures RewrittenUpTo(v, guard.View(), f, j + 1, UpdateRows(pred, upd, over))
    {
      AtLeaf(v, guard.View(), f, j, UpdateRows(pred, upd, over), over);
      var page := guard.ReadPage(current);
      var replaced;
      replaced, changes := ReplaceRows(page.value.rows, pred, upd, over);
      next := page.value.next;
      var size := DataSize(replaced);
      inPlace := PAGE_HEADER_SIZE + |replaced| * 2 + size + CHECKSUM_SIZE <= PAGE_SIZE;
      if changes.value == [] { NoChanges(page.value.rows, pred, upd, over); }
      RewriteLeaf(current, page.value, if inPlace then replaced else page.value.rows, changes.value != [] && inPlace,
                  f, v, j, UpdateRows(pred, upd, over));
    }

    /** Update every matching row, in place leaf by leaf; rows of leaves that would overflow are only listed. */
    method UpdateMatching(pred: seq<Byte> -> bool, upd: seq<Byte> -> seq<Byte>,
                          ghost t: Tree, ghost h: nat, ghost over: map<nat, OverPage>)
        returns (r: BulkOutcome<(seq<Change>, seq<Change>)>)
      requires guard.Valid() && Stored(guard.View(), root, t, h, guard.Next()) && over == Over(guard.View())
      modifies guard
      ensures guard.Valid() && guard.Next() == old(guard.Next())
      ensures r == Walked((InPlace(Fringe(t), pred, upd, over), Spilled(Fringe(t), pred, upd, over)))
      ensures HoldsMapped(guard.View(), t, UpdateRows(pred, upd, over)) && Over(guard.View()) == over
      ensures Frame(old(guard.View()), guard.View(), t)
    {
      ghost var v := guard.View();
      var first, maxPages := StartWalk(t, h, UpdateRows(pred, upd, over));
      r := UpdateWalk(first, maxPages, pred, upd, Fringe(t), v, over);
      WalkEnds(t, v, guard.View(), guard.Next(), UpdateRows(pred, upd, over));
    }

    method UpdateWalk(first: nat, maxPages: nat, pred: seq<Byte> -> bool, upd: seq<Byte> -> seq<Byte>,
                      ghost f: seq<LeafRec>, ghost v: Pages, ghost over: map<nat, OverPage>)
        returns (r: BulkOutcome<(seq<Change>, seq<Change>)>)
      requires guard.Valid() && 0 < |f| <= maxPages && first == f[0].page
      requires Charted(v, f, over) && RewrittenUpTo(v, guard.View(), f, 0, UpdateRows(pred, upd, over))
      modifies guard
      ensures guard.Valid() && guard.Next() == old(guard.Next())
      ensures r == Walked((InPlace(f, pred, upd, over), Spilled(f, pred, upd, over)))
      ensures RewrittenUpTo(v, guard.View(), f, |f|, UpdateRows(pred, upd, over))
    {
      ghost var j: nat := 0;
      var visited, updated, overflow, current := 0, [], [], first;
      while true
        invariant j < |f| && current == f[j].page && visited == j
        invariant guard.Valid() && guard.Next() == old(guard.Next())
        invariant RewrittenUpTo(v, guard.View(), f, j, UpdateRows(pred, upd, over))
        invariant Tallied(updated, overflow, f[..j], pred, upd, over)
        decreases |f| - j
      {
        visited := visited + 1;
        if visited > maxPages {
          return Broken;
        }
        TallyStep(updated, overflow, f, j, pred, upd, over);
        var changes, inPlace, next := UpdateLeafAt(current, pred, upd, f, v, j, over);
        if changes.None? {
          return Broken;
        }
        updated, overflow := if inPlace then updated + changes.value else updated, if inPlace then overflow else overflow + changes.value;
        LastLeaf(v, f, j, over);
        j := j + 1;
        if next == 0 {
          return Walked((updated, overflow));
        }
        current := next;
      }
    }
  }

  /** The changes made in place and those left over, on these leaves. */
  ghost predicate Tallied(updated: seq<Change>, overflow: seq<Change>, f: seq<LeafRec>,
                          pred: seq<Byte> -> bool, upd: seq<Byte> -> seq<Byte>, over: map<nat, OverPage>) {
    updated == InPlace(f, pred, upd, over) && overflow == Spilled(f, pred, upd, over)
  }

  lemma TallyStep(updated: seq<Change>, overflow: seq<Change>, f: seq<LeafRec>, j: nat,
                  pred: seq<Byte> -> bool, upd: seq<Byte> -> seq<Byte>, over: map<nat, OverPage>)
    requires j < |f| && Tallied(updated, overflow, f[..j], pred, upd, over)
    ensures var changes, fits := ChangesIn(f[j].rows, pred, upd, over), FitsUpdated(f[j].rows, pred, upd, over);
            Tallied(if fits then updated + changes else updated, if fits then overflow else overflow + changes, f[..j + 1], pred, upd, over)
  {
    UpdatedStep(f, j, pred, upd, over);
  }

  lemma MatchStep(rows: seq<Entry>, i: nat, pred: seq<Byte> -> bool, over: map<nat, OverPage>)
    requires i < |rows|
    ensures Dropped(rows[..i + 1], pred) == Dropped(rows[..i], pred) + (if pred(rows[i].data) then [] else [rows[i]])
    ensures Whole(Matching(rows[..i + 1], pred), over) ==
      Whole(Matching(rows[..i], pred), over) + (if pred(rows[i].data) then [WholeRow(rows[i], over)] else [])
  {
    CutAround(rows, i);
    PassingConcat(rows[..i], [rows[i]], (e: Entry) => !pred(e.data));
    PassingConcat(rows[..i], [rows[i]], (e: Entry) => pred(e.data));
    PassingOne(rows[i], (e: Entry) => !pred(e.data));
    PassingOne(rows[i], (e: Entry) => pred(e.data));
    WholeConcat(Matching(rows[..i], pred), Matching([rows[i]], pred), over);
  }

  lemma PassingOne(e: Entry, keep: Entry -> bool)
    ensures Passing([e], keep) == if keep(e) then [e] else []
  {
    assert [e][1..] == [];
  }

  lemma MatchingStep(f: seq<LeafRec>, j: nat, pred: seq<Byte> -> bool, over: map<nat, OverPage>)
    requires j < |f|
    ensures Whole(Matching(Rows(f[..j + 1]), pred), over) ==
      Whole(Matching(Rows(f[..j]), pred), over) + Whole(Matching(f[j].rows, pred), over)
  {
    CutAround(f, j);
    RowsConcat(f[..j], [f[j]]);
    OneLeafRows(f[j]);
    PassingConcat(Rows(f[..j]), f[j].rows, (e: Entry) => pred(e.data));
    WholeConcat(Matching(Rows(f[..j]), pred), Matching(f[j].rows, pred), over);
  }

  lemma {:induction false} NoneMatching(rows: seq<Entry>, pred: seq<Byte> -> bool, over: map<nat, OverPage>)
    requires Matching(rows, pred) == []
    ensures Dropped(rows, pred) == rows
  {
    if rows != [] { NoneMatching(rows[1..], pred, over); }
  }

  lemma OverKept(v: Pages, w: Pages, f: seq<LeafRec>, j: nat, g: Rewrite)
    requires j <= |f| && RewrittenUpTo(v, w, f, j, g)
    ensures Over(w) == Over(v)
  {
    forall q | q in v ensures v[q].OverflowPage? <==> w[q].OverflowPage?
      ensures v[q].OverflowPage? ==> w[q] == v[q]
    {
      if q in LeafPages(f[..j]) { var i :| 0 <= i < j && LeafPages(f[..j])[i] == q; assert w[f[i].page].LeafPage?; }
    }
  }
}
