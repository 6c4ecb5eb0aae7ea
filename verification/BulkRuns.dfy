/** Bulk deletes and updates as operations on the map of rows. */
module BulkRuns {
  import opened Bytes
  import opened Overflow
  import opened LeafSplit
  import opened BTree
  import opened BTreeShape
  import opened BTreeLeaves
  import opened BTreePages
  import opened BTreeRuns
  import opened BTreeReader
  import opened BTreeBulk
  import opened Cursor

  /** No row of the tree has an overflow chain. */
  ghost predicate AllInline(rows: seq<Entry>) {
    forall e :: e in rows ==> !HasOverflow(e.data)
  }

  /** A state with every leaf rewritten. */
  function Mapped(s: State, g: Rewrite): State {
    s.(t := MapLeaves(s.t, g))
  }

  // ----- searching by element -----

  lemma SearchElement(rows: seq<Entry>, i: nat)
    requires Sorted(rows) && i < |rows|
    ensures RowsSearch(rows, rows[i].id) == Found(rows[i].data)
  {
    BoundUnique(rows, rows[i].id, i);
  }

  lemma SearchAbsent(rows: seq<Entry>, id: nat)
    requires !HasId(rows, id)
    ensures RowsSearch(rows, id) == NotFound
  {
  }

  lemma MappedValid(s: State, g: Rewrite, h: nat)
    requires Valid(s, h) && Keeps(g)
    requires Readable(TreeRows(MapLeaves(s.t, g)), s.over) && AllKeyed(TreeRows(MapLeaves(s.t, g)))
    ensures Valid(Mapped(s, g), h)
  {
    MapLeavesWf(s.t, g, h, 0, MAX_ID, ROW_BRANCH_KEYS, 1);
    WfShaped(MapLeaves(s.t, g), h, 0, MAX_ID, ROW_BRANCH_KEYS, 1);
    forall q ensures Uses(MapLeaves(s.t, g), q) <= OneIn(q, 1, s.next) {
      MapLeavesUses(s.t, g, q);
      assert Uses(s.t, q) <= OneIn(q, 1, s.next);
    }
  }

  // ----- delete -----

  lemma {:induction false} DroppedRows(f: seq<LeafRec>, pred: seq<Byte> -> bool)
    ensures Rows(MapFringe(f, DropRows(pred))) == Dropped(Rows(f), pred)
  {
    if f != [] {
      DroppedRows(f[1..], pred);
      assert MapFringe(f, DropRows(pred))[1..] == MapFringe(f[1..], DropRows(pred));
      PassingConcat(f[0].rows, Rows(f[1..]), (e: Entry) => !pred(e.data));
    }
  }

  ghost function WithoutMatching(m: map<nat, seq<Byte>>, pred: seq<Byte> -> bool): map<nat, seq<Byte>> {
    map id | id in m && !pred(m[id]) :: m[id]
  }

  lemma LeftReadable(rows: seq<Entry>, pred: seq<Byte> -> bool, over: map<nat, OverPage>)
    requires Readable(rows, over) && AllKeyed(rows)
    ensures Readable(Dropped(rows, pred), over) && AllKeyed(Dropped(rows, pred))
  {
    var left := Dropped(rows, pred);
    DroppedElements(rows, pred);
    forall i | 0 <= i < |left| ensures Reassemble(left[i].data, over).Row? { assert left[i] in rows; }
  }

  /** `delete_matching` removes exactly the matching rows from the map. */
  lemma DeleteMatchingOnMap(s: State, pred: seq<Byte> -> bool, h: nat, m: map<nat, seq<Byte>>)
    requires Valid(s, h) && Agrees(s, m) && AllInline(TreeRows(s.t))
    ensures Valid(Mapped(s, DropRows(pred)), h) && Agrees(Mapped(s, DropRows(pred)), WithoutMatching(m, pred))
  {
    var g, rows := DropRows(pred), TreeRows(s.t);
    DropRewriteKeeps(pred);
    MapLeavesFringe(s.t, g);
    DroppedRows(Fringe(s.t), pred);
    var left := Dropped(rows, pred);
    LeftReadable(rows, pred, s.over);
    MappedValid(s, g, h);
    FringeSorted(s.t, h, 0, MAX_ID, ROW_BRANCH_KEYS, 1);
    forall id: nat | id < MAX_ID ensures Lookup(left, s.over, id) == Expect(WithoutMatching(m, pred), id) {
      assert Lookup(rows, s.over, id) == Expect(m, id);
      DroppedLookup(rows, pred, s.over, id);
    }
  }

  lemma DroppedLookup(rows: seq<Entry>, pred: seq<Byte> -> bool, over: map<nat, OverPage>, id: nat)
    requires Sorted(rows) && AllInline(rows)
    ensures var whole := Lookup(rows, over, id);
            Lookup(Dropped(rows, pred), over, id) ==
            if whole.Got? && whole.found.Found? && pred(whole.found.data) then Got(NotFound) else whole
  {
    DroppedElements(rows, pred);
    DroppedSorted(rows, pred);
    DroppedIds(rows, pred);
    var left := Dropped(rows, pred);
    if i :| 0 <= i < |rows| && rows[i].id == id {
      SearchElement(rows, i);
      assert rows[i] in rows;
      if pred(rows[i].data) {
        forall k | 0 <= k < |left| ensures left[k].id != id {
          assert left[k] in rows;
          var j :| 0 <= j < |rows| && rows[j] == left[k];
        }
        SearchAbsent(left, id);
      } else {
        var k :| 0 <= k < |left| && left[k] == rows[i];
        SearchElement(left, k);
      }
    } else {
      SearchAbsent(rows, id);
      forall k | 0 <= k < |left| ensures left[k].id != id { assert HasId(rows, left[k].id); }
      SearchAbsent(left, id);
    }
  }

  // ----- update -----

  /** Ids named by a list of changes. */
  ghost function Ids(c: seq<Change>): set<nat> {
    set i | 0 <= i < |c| :: c[i].id
  }

  /**
   * Rows after an in-place pass: the rows in `now` carry the new bytes, the rows in
   * `later` are still to be re-inserted, and together these are the matching rows.
   */
  ghost predicate Applied(
      rows: seq<Entry>, after: seq<Entry>, now: set<nat>, later: set<nat>,
      pred: seq<Byte> -> bool, upd: seq<Byte> -> seq<Byte>)
  {
    && |after| == |rows| && now !! later
    && (forall i :: 0 <= i < |rows| ==>
         && after[i].id == rows[i].id
         && after[i].data == (if rows[i].id in now then upd(rows[i].data) else rows[i].data)
         && (pred(rows[i].data) <==> rows[i].id in now + later))
    && (forall id :: id in now + later ==> HasId(rows, id))
  }

  lemma MatchingIds(rows: seq<Entry>, pred: seq<Byte> -> bool, upd: seq<Byte> -> seq<Byte>, over: map<nat, OverPage>)
    requires Sorted(rows)
    ensures forall i :: 0 <= i < |rows| ==> (rows[i].id in Ids(ChangesIn(rows, pred, upd, over)) <==> pred(rows[i].data))
    ensures forall id :: id in Ids(ChangesIn(rows, pred, upd, over)) ==> HasId(rows, id)
  {
    var m, c := Matching(rows, pred), ChangesIn(rows, pred, upd, over);
    PassingAre(rows, (e: Entry) => pred(e.data));
    forall k | 0 <= k < |m| ensures HasId(rows, m[k].id) && pred(m[k].data) && c[k].id == m[k].id && m[k] in rows {
      assert m[k] in m;
      var i :| 0 <= i < |rows| && rows[i] == m[k];
    }
    forall i | 0 <= i < |rows| ensures rows[i].id in Ids(c) <==> pred(rows[i].data) {
      if rows[i].id in Ids(c) {
        var k :| 0 <= k < |c| && c[k].id == rows[i].id;
        var j :| 0 <= j < |rows| && rows[j] == m[k];
        SameRow(rows, i, j);
        assert pred(rows[i].data);
      }
      if pred(rows[i].data) {
        assert rows[i] in m;
        var k :| 0 <= k < |m| && m[k] == rows[i];
        assert c[k].id == rows[i].id;
      }
    }
  }

  lemma SameRow(rows: seq<Entry>, i: nat, j: nat)
    requires Sorted(rows) && i < |rows| && j < |rows| && rows[i].id == rows[j].id
    ensures i == j
  {
  }

  lemma LeafApplied(rows: seq<Entry>, pred: seq<Byte> -> bool, upd: seq<Byte> -> seq<Byte>, over: map<nat, OverPage>)
    requires Sorted(rows) && AllInline(rows)
    ensures var c, fits := Ids(ChangesIn(rows, pred, upd, over)), FitsUpdated(rows, pred, upd, over);
            Applied(rows, UpdatedLeaf(rows, pred, upd, over), if fits then c else {}, if fits then {} else c, pred, upd)
  {
    MatchingIds(rows, pred, upd, over);
    forall i | 0 <= i < |rows| ensures WholeRow(rows[i], over) == rows[i] { assert rows[i] in rows; }
  }

  /** Id sets drawn from two lists of rows, all of one below all of the other, are apart. */
  lemma IdsApart(a: seq<Entry>, x: set<nat>, b: seq<Entry>, y: set<nat>)
    requires forall p, q :: p in a && q in b ==> p.id < q.id
    requires (forall id :: id in x ==> HasId(a, id)) && (forall id :: id in y ==> HasId(b, id))
    ensures x !! y
    ensures forall k :: 0 <= k < |a| ==> a[k].id !in y
    ensures forall k :: 0 <= k < |b| ==> b[k].id !in x
    ensures forall id :: id in x + y ==> HasId(a + b, id)
  {
    forall id | id in x ensures HasId(a + b, id) {
      var k :| 0 <= k < |a| && a[k].id == id;
      assert (a + b)[k].id == id;
    }
    forall id | id in y ensures HasId(a + b, id) {
      var k :| 0 <= k < |b| && b[k].id == id;
      assert (a + b)[|a| + k].id == id;
    }
    forall k, l | 0 <= k < |a| && 0 <= l < |b| ensures a[k].id < b[l].id { assert a[k] in a && b[l] in b; }
  }

  lemma AppliedConcat(
      a: seq<Entry>, a': seq<Entry>, i: set<nat>, s: set<nat>, b: seq<Entry>, b': seq<Entry>, j: set<nat>, t: set<nat>,
      pred: seq<Byte> -> bool, upd: seq<Byte> -> seq<Byte>)
    requires Applied(a, a', i, s, pred, upd) && Applied(b, b', j, t, pred, upd)
    requires forall x, y :: x in a && y in b ==> x.id < y.id
    ensures Applied(a + b, a' + b', i + j, s + t, pred, upd)
  {
    IdsApart(a, i + s, b, j + t);
    assert (i + j) + (s + t) == (i + s) + (j + t);
    var all, after := a + b, a' + b';
    forall k | 0 <= k < |all|
      ensures after[k].id == all[k].id
      ensures after[k].data == (if all[k].id in i + j then upd(all[k].data) else all[k].data)
      ensures pred(all[k].data) <==> all[k].id in (i + j) + (s + t)
    {
      if k < |a| { assert all[k] == a[k] && after[k] == a'[k]; } else { assert all[k] == b[k - |a|] && after[k] == b'[k - |a|]; }
    }
  }

  lemma {:induction false} WalkApplied(
      f: seq<LeafRec>, pred: seq<Byte> -> bool, upd: seq<Byte> -> seq<Byte>, over: map<nat, OverPage>)
    requires Sorted(Rows(f)) && AllInline(Rows(f))
    ensures Applied(Rows(f), Rows(MapFringe(f, UpdateRows(pred, upd, over))),
                    Ids(InPlace(f, pred, upd, over)), Ids(Spilled(f, pred, upd, over)), pred, upd)
  {
    if f != [] {
      var n := |f| - 1;
      var init, x := f[..n], f[n];
      assert f == init + [x];
      LastLeaf(init, x);
      WalkApplied(init, pred, upd, over);
      LeafApplied(x.rows, pred, upd, over);
      MapFringeLast(init, x, UpdateRows(pred, upd, over));
      var c, fits := ChangesIn(x.rows, pred, upd, over), FitsUpdated(x.rows, pred, upd, over);
      IdsConcat(InPlace(init, pred, upd, over), if fits then c else []);
      IdsConcat(Spilled(init, pred, upd, over), if fits then [] else c);
      AppliedConcat(
        Rows(init), Rows(MapFringe(init, UpdateRows(pred, upd, over))),
        Ids(InPlace(init, pred, upd, over)), Ids(Spilled(init, pred, upd, over)),
        x.rows, UpdatedLeaf(x.rows, pred, upd, over),
        if fits then Ids(c) else {}, if fits then {} else Ids(c), pred, upd);
    }
  }

  lemma LastLeaf(init: seq<LeafRec>, x: LeafRec)
    requires Sorted(Rows(init + [x])) && AllInline(Rows(init + [x]))
    ensures Rows(init + [x]) == Rows(init) + x.rows
    ensures Sorted(Rows(init)) && Sorted(x.rows) && AllInline(Rows(init)) && AllInline(x.rows)
    ensures forall e, g :: e in Rows(init) && g in x.rows ==> e.id < g.id
  {
    RowsConcat(init, [x]);
    OneLeafRows(x);
    assert [] + (Rows(init) + x.rows) == Rows(init + [x]);
    SortedParts([], Rows(init), x.rows);
    assert Rows(init) + (x.rows + []) == Rows(init + [x]);
    SortedParts(Rows(init), x.rows, []);
  }

  lemma MapFringeLast(init: seq<LeafRec>, x: LeafRec, g: Rewrite)
    ensures Rows(MapFringe(init + [x], g)) == Rows(MapFringe(init, g)) + g(x.rows)
  {
    assert MapFringe(init + [x], g) == MapFringe(init, g) + [LeafRec(x.page, g(x.rows))];
    RowsConcat(MapFringe(init, g), [LeafRec(x.page, g(x.rows))]);
    OneLeafRows(LeafRec(x.page, g(x.rows)));
  }

  lemma IdsConcat(a: seq<Change>, b: seq<Change>)
    ensures Ids(a + b) == Ids(a) + Ids(b)
  {
    forall id | id in Ids(a) + Ids(b) ensures id in Ids(a + b) {
      if id in Ids(a) {
        var i :| 0 <= i < |a| && a[i].id == id;
        assert (a + b)[i].id == id;
      } else {
        var i :| 0 <= i < |b| && b[i].id == id;
        assert (a + b)[|a| + i].id == id;
      }
    }
  }

  // ----- the whole bulk update -----

  /** The updater keeps rows storable. */
  ghost predicate UpdaterOk(rows: seq<Entry>, pred: seq<Byte> -> bool, upd: seq<Byte> -> seq<Byte>) {
    forall e :: e in rows && pred(e.data) ==> RowOk(Entry(e.id, upd(e.data)))
  }

  ghost function UpdatedMap(m: map<nat, seq<Byte>>, pred: seq<Byte> -> bool, upd: seq<Byte> -> seq<Byte>): map<nat, seq<Byte>> {
    map id | id in m :: if pred(m[id]) then upd(m[id]) else m[id]
  }

  ghost function Patched(m: map<nat, seq<Byte>>, ids: set<nat>, upd: seq<Byte> -> seq<Byte>): map<nat, seq<Byte>> {
    map id | id in m :: if id in ids then upd(m[id]) else m[id]
  }

  /** Delete and re-insert each listed row. */
  function ReinsertOps(c: seq<Change>): (ops: seq<Op>)
    decreases |c|
  {
    if c == [] then [] else [Drop(c[0].id), Put(Entry(c[0].id, c[0].after))] + ReinsertOps(c[1..])
  }

  lemma {:induction false} RowsFit(f: seq<LeafRec>)
    requires forall x :: x in f ==> Fits(Sizes(x.rows))
    ensures forall e :: e in Rows(f) ==> |e.data| <= MAX_SINGLE_ROW
  {
    if f != [] {
      RowsFit(f[1..]);
      var x := f[0].rows;
      forall i | 0 <= i < |x| ensures |x[i].data| <= MAX_SINGLE_ROW {
        SumCut(Sizes(x), i);
        assert Sizes(x)[i..][0] == |x[i].data|;
      }
    }
  }

  lemma AfterInline(s: State, pred: seq<Byte> -> bool, upd: seq<Byte> -> seq<Byte>, h: nat)
    requires Valid(s, h) && AllInline(TreeRows(s.t)) && UpdaterOk(TreeRows(s.t), pred, upd)
    ensures AllInline(TreeRows(MapLeaves(s.t, UpdateRows(pred, upd, s.over))))
    ensures AllKeyed(TreeRows(MapLeaves(s.t, UpdateRows(pred, upd, s.over))))
    ensures Applied(TreeRows(s.t), TreeRows(MapLeaves(s.t, UpdateRows(pred, upd, s.over))),
                    Ids(InPlace(Fringe(s.t), pred, upd, s.over)), Ids(Spilled(Fringe(s.t), pred, upd, s.over)), pred, upd)
  {
    var g := UpdateRows(pred, upd, s.over);
    FringeSorted(s.t, h, 0, MAX_ID, ROW_BRANCH_KEYS, 1);
    MapLeavesFringe(s.t, g);
    WalkApplied(Fringe(s.t), pred, upd, s.over);
    UpdateRewriteKeeps(pred, upd, s.over);
    MapLeavesWf(s.t, g, h, 0, MAX_ID, ROW_BRANCH_KEYS, 1);
    AllLeavesFit(MapLeaves(s.t, g), h, 0, MAX_ID, ROW_BRANCH_KEYS, 1);
    RowsFit(Fringe(MapLeaves(s.t, g)));
    AppliedRowsOk(TreeRows(s.t), TreeRows(MapLeaves(s.t, g)),
                  Ids(InPlace(Fringe(s.t), pred, upd, s.over)), Ids(Spilled(Fringe(s.t), pred, upd, s.over)), pred, upd);
  }

  /** Rows updated in place are storable, too, and short. */
  lemma AppliedRowsOk(rows: seq<Entry>, after: seq<Entry>, now: set<nat>, later: set<nat>, pred: seq<Byte> -> bool, upd: seq<Byte> -> seq<Byte>)
    requires Applied(rows, after, now, later, pred, upd) && UpdaterOk(rows, pred, upd)
    requires AllInline(rows) && AllKeyed(rows) && forall e :: e in after ==> |e.data| <= MAX_SINGLE_ROW
    ensures AllInline(after) && AllKeyed(after)
  {
    forall e | e in after ensures !HasOverflow(e.data) && Keyed(e) {
      var i :| 0 <= i < |after| && after[i] == e;
      assert rows[i] in rows;
    }
  }

  lemma AppliedLookup(
      rows: seq<Entry>, after: seq<Entry>, now: set<nat>, later: set<nat>,
      pred: seq<Byte> -> bool, upd: seq<Byte> -> seq<Byte>, over: map<nat, OverPage>, id: nat, m: map<nat, seq<Byte>>)
    requires Applied(rows, after, now, later, pred, upd) && Sorted(rows) && Sorted(after)
    requires AllInline(rows) && AllInline(after)
    requires Lookup(rows, over, id) == Expect(m, id)
    ensures Lookup(after, over, id) == Expect(Patched(m, now, upd), id)
    ensures id in m ==> (pred(m[id]) <==> id in now + later)
    ensures id in now + later ==> id in m
  {
    if i :| 0 <= i < |rows| && rows[i].id == id {
      SearchElement(rows, i);
      SearchElement(after, i);
      assert rows[i] in rows && after[i] in after;
    } else {
      SearchAbsent(rows, id);
      SearchAbsent(after, id);
    }
  }

  /** After the in-place pass the store agrees with the map patched at the rows done so far. */
  lemma InPlaceOnMap(s: State, pred: seq<Byte> -> bool, upd: seq<Byte> -> seq<Byte>, h: nat, m: map<nat, seq<Byte>>)
    requires Valid(s, h) && Agrees(s, m) && AllInline(TreeRows(s.t)) && UpdaterOk(TreeRows(s.t), pred, upd)
    ensures var s1 := Mapped(s, UpdateRows(pred, upd, s.over));
            var now, later := Ids(InPlace(Fringe(s.t), pred, upd, s.over)), Ids(Spilled(Fringe(s.t), pred, upd, s.over));
            && Valid(s1, h) && Agrees(s1, Patched(m, now, upd))
            && now !! later
            && (forall id: nat :: id < MAX_ID && id in m ==> (pred(m[id]) <==> id in now + later))
  {
    var g, rows := UpdateRows(pred, upd, s.over), TreeRows(s.t);
    var after := TreeRows(MapLeaves(s.t, g));
    AfterInline(s, pred, upd, h);
    FringeSorted(s.t, h, 0, MAX_ID, ROW_BRANCH_KEYS, 1);
    forall i | 0 <= i < |after| ensures Reassemble(after[i].data, s.over).Row? { assert after[i] in after; }
    UpdateRewriteKeeps(pred, upd, s.over);
    MappedValid(s, g, h);
    FringeSorted(MapLeaves(s.t, g), h, 0, MAX_ID, ROW_BRANCH_KEYS, 1);
    var now, later := Ids(InPlace(Fringe(s.t), pred, upd, s.over)), Ids(Spilled(Fringe(s.t), pred, upd, s.over));
    forall id: nat | id < MAX_ID
      ensures Lookup(after, s.over, id) == Expect(Patched(m, now, upd), id)
      ensures id in m ==> (pred(m[id]) <==> id in now + later)
    {
      assert Lookup(rows, s.over, id) == Expect(m, id);
      AppliedLookup(rows, after, now, later, pred, upd, s.over, id, m);
    }
  }

  lemma {:induction false} SpilledFrom(
      f: seq<LeafRec>, pred: seq<Byte> -> bool, upd: seq<Byte> -> seq<Byte>, over: map<nat, OverPage>)
    requires AllInline(Rows(f))
    ensures forall c :: c in Spilled(f, pred, upd, over) ==>
      exists e :: e in Rows(f) && pred(e.data) && c == Change(e.id, e.data, upd(e.data))
  {
    if f != [] {
      var n := |f| - 1;
      assert f == f[..n] + [f[n]];
      RowsConcat(f[..n], [f[n]]);
      OneLeafRows(f[n]);
      SpilledFrom(f[..n], pred, upd, over);
      var x := f[n].rows;
      PassingAre(x, (e: Entry) => pred(e.data));
      forall c | c in ChangesIn(x, pred, upd, over)
        ensures exists e :: e in Rows(f) && pred(e.data) && c == Change(e.id, e.data, upd(e.data))
      {
        var k :| 0 <= k < |ChangesIn(x, pred, upd, over)| && ChangesIn(x, pred, upd, over)[k] == c;
        var e := Matching(x, pred)[k];
        assert e in Matching(x, pred) && e in Rows(f) && WholeRow(e, over) == e;
      }
    }
  }

  /** Re-inserting sets exactly the listed ids to their new bytes. */
  lemma {:induction false} ReinsertOnMap(c: seq<Change>, m: map<nat, seq<Byte>>, goal: nat -> seq<Byte>)
    requires forall x :: x in c ==> x.id in m && x.after == goal(x.id)
    ensures MapExecute(m, ReinsertOps(c)).0 == map id | id in m :: if id in Ids(c) then goal(id) else m[id]
    decreases |c|
  {
    if c != [] {
      var ops, rest := ReinsertOps(c), ReinsertOps(c[1..]);
      var m1 := m[c[0].id := c[0].after];
      assert c[0] in c;
      assert ops[1..] == [Put(Entry(c[0].id, c[0].after))] + rest && ops[1..][1..] == rest;
      assert (m - {c[0].id})[c[0].id := c[0].after] == m1;
      assert MapExecute(m, ops).0 == MapExecute(m - {c[0].id}, ops[1..]).0 == MapExecute(m1, rest).0;
      forall x | x in c[1..] ensures x.id in m1 && x.after == goal(x.id) { assert x in c; }
      ReinsertOnMap(c[1..], m1, goal);
      IdsConcat([c[0]], c[1..]);
      assert c == [c[0]] + c[1..] && [c[0]][0].id in Ids([c[0]]);
      forall id | id in Ids([c[0]]) ensures id == c[0].id { }
    }
  }

  /**
   * The bulk update is pointwise: after the in-place pass and the re-insertion of the
   * rows it could not place, the updater has been applied once to exactly the matching rows.
   */
  lemma UpdateWhereIsPointwise(s: State, pred: seq<Byte> -> bool, upd: seq<Byte> -> seq<Byte>, h: nat, m: map<nat, seq<Byte>>)
      returns (h': nat)
    requires Valid(s, h) && Agrees(s, m) && AllInline(TreeRows(s.t)) && UpdaterOk(TreeRows(s.t), pred, upd)
    requires forall id :: id in m ==> id < MAX_ID
    ensures var s1 := Mapped(s, UpdateRows(pred, upd, s.over));
            var r := Execute(s1, ReinsertOps(Spilled(Fringe(s.t), pred, upd, s.over)));
            && (!r.stopped ==> Agrees(r.s, UpdatedMap(m, pred, upd)))
            && (PageOverrun !in r.answers ==> Valid(r.s, h'))
  {
    var s1, c := Mapped(s, UpdateRows(pred, upd, s.over)), Spilled(Fringe(s.t), pred, upd, s.over);
    var m1 := Patched(m, Ids(InPlace(Fringe(s.t), pred, upd, s.over)), upd);
    InPlaceOnMap(s, pred, upd, h, m);
    SpilledRows(s, pred, upd, h, m);
    ReinsertOpsOk(c);
    h' := RunRefinesMap(s1, ReinsertOps(c), h, m1);
    PatchThenReinsert(m, c, Ids(InPlace(Fringe(s.t), pred, upd, s.over)), pred, upd);
  }

  lemma SpilledRows(s: State, pred: seq<Byte> -> bool, upd: seq<Byte> -> seq<Byte>, h: nat, m: map<nat, seq<Byte>>)
    requires Valid(s, h) && Agrees(s, m) && AllInline(TreeRows(s.t)) && UpdaterOk(TreeRows(s.t), pred, upd)
    ensures forall x :: x in Spilled(Fringe(s.t), pred, upd, s.over) ==>
      x.id in m && x.after == upd(m[x.id]) && RowOk(Entry(x.id, x.after))
  {
    var rows := TreeRows(s.t);
    SpilledFrom(Fringe(s.t), pred, upd, s.over);
    FringeSorted(s.t, h, 0, MAX_ID, ROW_BRANCH_KEYS, 1);
    forall x | x in Spilled(Fringe(s.t), pred, upd, s.over)
      ensures x.id in m && x.after == upd(m[x.id]) && RowOk(Entry(x.id, x.after))
    {
      var e :| e in rows && pred(e.data) && x == Change(e.id, e.data, upd(e.data));
      var i :| 0 <= i < |rows| && rows[i] == e;
      SearchElement(rows, i);
      assert Lookup(rows, s.over, e.id) == Expect(m, e.id);
    }
  }

  lemma PatchThenReinsert(
      m: map<nat, seq<Byte>>, c: seq<Change>, now: set<nat>, pred: seq<Byte> -> bool, upd: seq<Byte> -> seq<Byte>)
    requires forall x :: x in c ==> x.id in m && x.after == upd(m[x.id])
    requires now !! Ids(c) && forall id :: id in m ==> (pred(m[id]) <==> id in now + Ids(c))
    ensures MapExecute(Patched(m, now, upd), ReinsertOps(c)).0 == UpdatedMap(m, pred, upd)
  {
    ReinsertOnMap(c, Patched(m, now, upd), (id: nat) => if id in m then upd(m[id]) else []);
  }

  lemma {:induction false} ReinsertOpsOk(c: seq<Change>)
    requires forall x :: x in c ==> RowOk(Entry(x.id, x.after))
    ensures forall op :: op in ReinsertOps(c) ==> OpOk(op)
    decreases |c|
  {
    if c != [] {
      assert c[0] in c;
      ReinsertOpsOk(c[1..]);
    }
  }
}
