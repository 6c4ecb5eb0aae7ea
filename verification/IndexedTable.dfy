/** A table with its indexes: every change keeps in each index exactly one key per indexed row. */
module IndexedTable {
  import opened Bytes
  import opened Values
  import opened IndexKey
  import opened RowCodec
  import opened Store

  /** The columns of an index, by id and type. */
  datatype IndexSpec = IndexSpec(cols: seq<nat>, types: seq<Type>)

  type Rows = map<nat, seq<Col>>

  /** The indexed values of a row; null for a column it does not have. */
  function IndexedValues(spec: IndexSpec, row: seq<Col>): (vs: seq<Value>)
    ensures |vs| == |spec.cols|
  {
    seq(|spec.cols|, i requires 0 <= i < |spec.cols| => ValueOf(row, spec.cols[i]))
  }

  function ValueOf(row: seq<Col>, id: nat): Value {
    match Lookup(row, id) case Some(v) => v case None => Null
  }

  /** Every indexed value is null or of its column's type, text free of the terminator. */
  predicate Fitting(spec: IndexSpec, row: seq<Col>) {
    |spec.types| == |spec.cols| && forall i :: 0 <= i < |spec.cols| ==>
      ValueOf(row, spec.cols[i]).Null? || Indexable(spec.types[i], ValueOf(row, spec.cols[i]))
  }

  lemma FittingEncodes(spec: IndexSpec, row: seq<Col>)
    requires Fitting(spec, row)
    ensures Unconverted(spec.types, IndexedValues(spec, row))
    ensures TuplePrefix(spec.types, IndexedValues(spec, row)).Some? <==> TupleIndexable(spec.types, IndexedValues(spec, row))
    ensures TupleIndexable(spec.types, IndexedValues(spec, row)) <==>
            forall i :: 0 <= i < |spec.cols| ==> !ValueOf(row, spec.cols[i]).Null?
  {
    var vs := IndexedValues(spec, row);
    EncodedWhenPresent(spec.types, vs);
    if TupleIndexable(spec.types, vs) {
      TupleEncodes(spec.types, vs);
      forall i | 0 <= i < |spec.cols| ensures !ValueOf(row, spec.cols[i]).Null? {
        assert Indexable(spec.types[i], vs[i]);
      }
    }
  }

  /** The key of a row in an index; none while an indexed value is null. */
  function KeyOfRow(spec: IndexSpec, rowid: nat, row: seq<Col>): Option<seq<Byte>>
    requires Fitting(spec, row)
  {
    FittingEncodes(spec, row);
    EncodeKey(spec.types, IndexedValues(spec, row), rowid)
  }

  ghost predicate AllFit(specs: seq<IndexSpec>, rows: Rows) {
    forall id :: id in rows ==> id < TWO_64 && RowFitsAll(specs, rows[id])
  }

  predicate RowFitsAll(specs: seq<IndexSpec>, row: seq<Col>) {
    forall k :: 0 <= k < |specs| ==> Fitting(specs[k], row)
  }

  /** The index holds exactly the keys of the rows. */
  ghost predicate Exact(spec: IndexSpec, rows: Rows, tree: set<seq<Byte>>)
    requires forall id :: id in rows ==> Fitting(spec, rows[id])
  {
    forall key :: key in tree <==> exists id :: id in rows && KeyOfRow(spec, id, rows[id]) == Some(key)
  }

  /** Keys of different rows differ, in their last eight bytes. */
  lemma KeysApart(spec: IndexSpec, i: nat, a: seq<Col>, j: nat, b: seq<Col>)
    requires Fitting(spec, a) && Fitting(spec, b) && i < TWO_64 && j < TWO_64
    requires KeyOfRow(spec, i, a).Some? && KeyOfRow(spec, i, a) == KeyOfRow(spec, j, b)
    ensures i == j
  {
    FittingEncodes(spec, a);
    FittingEncodes(spec, b);
    KeyRecovers(spec.types, IndexedValues(spec, a), IndexedValues(spec, b), i, j);
  }

  /** The first column in which the rows differ has the lesser value in the first row. */
  ghost predicate ColumnsLess(spec: IndexSpec, a: seq<Col>, b: seq<Col>) {
    exists k :: 0 <= k < |spec.cols| && LessAt(spec, a, b, k)
  }

  predicate LessAt(spec: IndexSpec, a: seq<Col>, b: seq<Col>, k: nat) {
    && k < |spec.cols| && ValueLess(ValueOf(a, spec.cols[k]), ValueOf(b, spec.cols[k]))
    && forall j :: 0 <= j < k ==> ValueOf(a, spec.cols[j]) == ValueOf(b, spec.cols[j])
  }

  /**
   * A row has a key exactly when none of the indexed columns is null. Keys sort by the indexed
   * columns in turn, then by rowid, and end in the rowid.
   */
  lemma KeysSortRows(spec: IndexSpec, i: nat, a: seq<Col>, j: nat, b: seq<Col>)
    requires Fitting(spec, a) && Fitting(spec, b) && i < TWO_64 && j < TWO_64
    ensures KeyOfRow(spec, i, a).Some? <==> forall k :: 0 <= k < |spec.cols| ==> !ValueOf(a, spec.cols[k]).Null?
    ensures var x, y := KeyOfRow(spec, i, a), KeyOfRow(spec, j, b);
            x.Some? && y.Some? ==>
            && |x.value| >= 8 && RowidOf(x.value) == i
            && (LexLess(x.value, y.value) <==>
                  ColumnsLess(spec, a, b)
                  || (i < j && forall k :: 0 <= k < |spec.cols| ==> ValueOf(a, spec.cols[k]) == ValueOf(b, spec.cols[k])))
  {
    FittingEncodes(spec, a);
    FittingEncodes(spec, b);
    var v, w := IndexedValues(spec, a), IndexedValues(spec, b);
    if KeyOfRow(spec, i, a).Some? && KeyOfRow(spec, j, b).Some? {
      KeyRecovers(spec.types, v, w, i, j);
      KeyOrder(spec.types, v, w, i, j);
      TupleLessFirst(v, w);
      LessColumns(spec, a, b);
    }
  }

  lemma LessColumns(spec: IndexSpec, a: seq<Col>, b: seq<Col>)
    ensures var v, w := IndexedValues(spec, a), IndexedValues(spec, b);
            && ((exists k :: 0 <= k < |v| && ValueLess(v[k], w[k]) && v[..k] == w[..k]) <==> ColumnsLess(spec, a, b))
            && (v == w <==> forall k :: 0 <= k < |spec.cols| ==> ValueOf(a, spec.cols[k]) == ValueOf(b, spec.cols[k]))
  {
    var v, w := IndexedValues(spec, a), IndexedValues(spec, b);
    assert forall j {:trigger spec.cols[j]} :: 0 <= j < |spec.cols| ==> ValueOf(a, spec.cols[j]) == v[j] && ValueOf(b, spec.cols[j]) == w[j];
    if forall k :: 0 <= k < |spec.cols| ==> ValueOf(a, spec.cols[k]) == ValueOf(b, spec.cols[k]) {
      forall k | 0 <= k < |v| ensures v[k] == w[k] { assert ValueOf(a, spec.cols[k]) == ValueOf(b, spec.cols[k]); }
    }
    if k :| 0 <= k < |v| && ValueLess(v[k], w[k]) && v[..k] == w[..k] {
      forall j | 0 <= j < k ensures ValueOf(a, spec.cols[j]) == ValueOf(b, spec.cols[j]) { assert v[..k][j] == w[..k][j]; }
      assert LessAt(spec, a, b, k);
    }
    if k :| 0 <= k < |spec.cols| && LessAt(spec, a, b, k) {
      assert v[..k] == w[..k] && ValueLess(v[k], w[k]);
    }
  }

  lemma {:induction false} TupleLessFirst(v: seq<Value>, w: seq<Value>)
    requires |v| == |w|
    ensures TupleLess(v, w) <==> exists k :: 0 <= k < |v| && ValueLess(v[k], w[k]) && v[..k] == w[..k]
  {
    if v != [] {
      TupleLessFirst(v[1..], w[1..]);
      if v[0] == w[0] && TupleLess(v[1..], w[1..]) {
        var k :| 0 <= k < |v| - 1 && ValueLess(v[1..][k], w[1..][k]) && v[1..][..k] == w[1..][..k];
        assert v[..k + 1] == [v[0]] + v[1..][..k] && w[..k + 1] == [w[0]] + w[1..][..k];
      }
      if k :| 0 <= k < |v| && ValueLess(v[k], w[k]) && v[..k] == w[..k] {
        if k > 0 {
          assert v[0] == v[..k][0] == w[..k][0] == w[0];
          assert v[1..][..k - 1] == v[..k][1..] == w[..k][1..] == w[1..][..k - 1];
        } else {
          assert v[..0] == w[..0];
        }
      } else if ValueLess(v[0], w[0]) {
        assert v[..0] == w[..0];
      }
    }
  }

  function Without(tree: set<seq<Byte>>, key: Option<seq<Byte>>): set<seq<Byte>> {
    if key.None? then tree else tree - {key.value}
  }

  function With(tree: set<seq<Byte>>, key: Option<seq<Byte>>): set<seq<Byte>> {
    if key.None? then tree else tree + {key.value}
  }

  /** A new row's key is not in the index yet, and adding it keeps the index exact. */
  lemma RowAdded(spec: IndexSpec, rows: Rows, tree: set<seq<Byte>>, id: nat, row: seq<Col>)
    requires (forall i :: i in rows ==> i < TWO_64 && Fitting(spec, rows[i])) && Exact(spec, rows, tree)
    requires id !in rows && id < TWO_64 && Fitting(spec, row)
    ensures KeyOfRow(spec, id, row).Some? ==> KeyOfRow(spec, id, row).value !in tree
    ensures Exact(spec, rows[id := row], With(tree, KeyOfRow(spec, id, row)))
  {
    var key, next := KeyOfRow(spec, id, row), rows[id := row];
    if key.Some? && key.value in tree {
      var other :| other in rows && KeyOfRow(spec, other, rows[other]) == key;
      KeysApart(spec, id, row, other, rows[other]);
    }
    forall k ensures k in With(tree, key) <==> exists i :: i in next && KeyOfRow(spec, i, next[i]) == Some(k) {
      if k in tree {
        var i :| i in rows && KeyOfRow(spec, i, rows[i]) == Some(k);
        assert i in next && next[i] == rows[i];
      } else if Some(k) == key {
        assert id in next && next[id] == row;
      }
      assert forall i :: i in next && i != id ==> i in rows && rows[i] == next[i];
    }
  }

  /** Removing a row's key keeps the index exact for the other rows. */
  lemma RowRemoved(spec: IndexSpec, rows: Rows, tree: set<seq<Byte>>, id: nat)
    requires (forall i :: i in rows ==> i < TWO_64 && Fitting(spec, rows[i])) && Exact(spec, rows, tree)
    requires id in rows
    ensures Exact(spec, rows - {id}, Without(tree, KeyOfRow(spec, id, rows[id])))
  {
    var key, next := KeyOfRow(spec, id, rows[id]), rows - {id};
    forall k ensures k in Without(tree, key) <==> exists i :: i in next && KeyOfRow(spec, i, next[i]) == Some(k) {
      if k in Without(tree, key) {
        var i :| i in rows && KeyOfRow(spec, i, rows[i]) == Some(k);
        assert i in next && next[i] == rows[i];
      } else if i :| i in next && KeyOfRow(spec, i, next[i]) == Some(k) {
        assert i in rows && rows[i] == next[i];
        KeysApart(spec, i, rows[i], id, rows[id]);
      }
    }
  }

  /** Merging changed columns into a row, new columns included. */
  function Merge(row: seq<Col>, fields: seq<Col>): seq<Col>
    decreases |fields|
  {
    if fields == [] then row else Merge(PutCol(row, fields[0]), fields[1..])
  }

  function PutCol(row: seq<Col>, c: Col): seq<Col> {
    if row == [] || c.id < row[0].id then [c] + row
    else if c.id == row[0].id then [c] + row[1..]
    else [row[0]] + PutCol(row[1..], c)
  }

  /** Putting a column in: its value is the new one, every other column keeps its own, the order of ids stays. */
  lemma {:induction false} PutColReads(row: seq<Col>, c: Col)
    requires Ascend(row)
    ensures Ascend(PutCol(row, c))
    ensures forall id :: Lookup(PutCol(row, c), id) == if id == c.id then Some(c.v) else Lookup(row, id)
    ensures forall d :: d in PutCol(row, c) ==> d == c || d in row
  {
    if row != [] {
      assert row == [row[0]] + row[1..];
      if c.id == row[0].id {
        assert forall i :: 0 <= i < |row| - 1 ==> row[1..][i].id > c.id;
      } else if c.id > row[0].id {
        PutColReads(row[1..], c);
        FirstStays(row[0], row[1..], PutCol(row[1..], c), c);
      }
      forall id ensures Lookup(PutCol(row, c), id) == if id == c.id then Some(c.v) else Lookup(row, id) {
        if c.id < row[0].id {
          assert PutCol(row, c)[1..] == row;
        } else {
          assert PutCol(row, c)[1..] == if c.id == row[0].id then row[1..] else PutCol(row[1..], c);
        }
      }
    }
  }

  lemma FirstStays(first: Col, rest: seq<Col>, put: seq<Col>, c: Col)
    requires Ascend([first] + rest) && Ascend(put) && first.id < c.id && forall d :: d in put ==> d == c || d in rest
    ensures Ascend([first] + put)
  {
    forall i | 0 <= i < |put| ensures first.id < put[i].id {
      if put[i] != c {
        assert put[i] in put;
        var j :| 0 <= j < |rest| && rest[j] == put[i];
        assert ([first] + rest)[j + 1] == rest[j] && ([first] + rest)[0] == first;
      }
    }
  }

  /** Field `i` is the last that names its column. */
  predicate LastNaming(fields: seq<Col>, i: nat) {
    i < |fields| && forall j :: i < j < |fields| ==> fields[j].id != fields[i].id
  }

  /**
   * A merged row: every column named has the value of the last field naming it, every other
   * column is as it was, and the columns are in id order.
   */
  ghost predicate MergedFrom(old_: seq<Col>, fields: seq<Col>, new_: seq<Col>) {
    && Ascend(new_)
    && (forall i: nat :: LastNaming(fields, i) ==> Lookup(new_, fields[i].id) == Some(fields[i].v))
    && (forall id :: (forall i :: 0 <= i < |fields| ==> fields[i].id != id) ==> Lookup(new_, id) == Lookup(old_, id))
  }

  lemma {:induction false} MergeReads(row: seq<Col>, fields: seq<Col>)
    requires Ascend(row)
    ensures MergedFrom(row, fields, Merge(row, fields))
    decreases |fields|
  {
    if fields != [] {
      var put, rest := PutCol(row, fields[0]), fields[1..];
      PutColReads(row, fields[0]);
      MergeReads(put, rest);
      MergedOn(row, put, fields, Merge(row, fields));
    }
  }

  lemma MergedOn(row: seq<Col>, put: seq<Col>, fields: seq<Col>, new_: seq<Col>)
    requires fields != [] && MergedFrom(put, fields[1..], new_)
    requires forall id :: Lookup(put, id) == if id == fields[0].id then Some(fields[0].v) else Lookup(row, id)
    ensures MergedFrom(row, fields, new_)
  {
    var rest := fields[1..];
    assert forall j :: 0 <= j < |rest| ==> rest[j] == fields[j + 1];
    forall i: nat | LastNaming(fields, i) ensures Lookup(new_, fields[i].id) == Some(fields[i].v) {
      if i > 0 {
        LastInRest(fields, i);
      } else {
        assert forall j :: 0 <= j < |rest| ==> rest[j].id != fields[0].id;
      }
    }
    forall id | forall i :: 0 <= i < |fields| ==> fields[i].id != id ensures Lookup(new_, id) == Lookup(row, id) {
      assert forall j :: 0 <= j < |rest| ==> rest[j].id != id;
    }
  }

  lemma LastInRest(fields: seq<Col>, i: nat)
    requires i > 0 && LastNaming(fields, i)
    ensures LastNaming(fields[1..], i - 1) && fields[1..][i - 1] == fields[i]
  {
    forall j | i - 1 < j < |fields| - 1 ensures fields[1..][j].id != fields[1..][i - 1].id { assert fields[1..][j] == fields[j + 1]; }
  }

  /** The table's rows and its index trees, a map and sets as the trees refine them. */
  class Table {
    const specs: seq<IndexSpec>
    var rows: Rows
    var trees: seq<set<seq<Byte>>>
    var nextRowid: nat
    var rowCount: nat

    ghost predicate ExactFor(some: Rows)
      reads this
    {
      && |trees| == |specs| && AllFit(specs, some)
      && forall k :: 0 <= k < |specs| ==> Exact(specs[k], some, trees[k])
    }

    /** Every index holds exactly one key per row without a null, and the count is right. */
    ghost predicate Consistent()
      reads this
    {
      ExactFor(rows) && rowCount == |rows| && forall id :: id in rows ==> id < nextRowid
    }

    constructor (specs: seq<IndexSpec>)
      ensures Consistent() && this.specs == specs && rows == map[] && nextRowid == 1
    {
      this.specs, rows, trees, nextRowid, rowCount := specs, map[], seq(|specs|, _ => {}), 1, 0;
    }

    /** Adds the keys of a row that is not indexed yet. */
    method AddKeys(ghost some: Rows, rowid: nat, row: seq<Col>)
      requires ExactFor(some) && rowid !in some && rowid < TWO_64 && RowFitsAll(specs, row)
      modifies this`trees
      ensures ExactFor(some[rowid := row])
    {
      ghost var before := trees;
      for k := 0 to |specs|
        invariant |trees| == |specs|
        invariant forall j :: k <= j < |specs| ==> trees[j] == before[j]
        invariant forall j :: 0 <= j < k ==> AllFit(specs, some[rowid := row]) && Exact(specs[j], some[rowid := row], trees[j])
      {
        RowAdded(specs[k], some, trees[k], rowid, row);
        var key := KeyOfRow(specs[k], rowid, row);
        trees := trees[k := With(trees[k], key)];
      }
    }

    method RemoveKeys(ghost some: Rows, rowid: nat, row: seq<Col>)
      requires ExactFor(some) && rowid in some && some[rowid] == row
      modifies this`trees
      ensures ExactFor(some - {rowid})
    {
      ghost var before := trees;
      for k := 0 to |specs|
        invariant |trees| == |specs|
        invariant forall j :: k <= j < |specs| ==> trees[j] == before[j]
        invariant forall j :: 0 <= j < k ==> AllFit(specs, some - {rowid}) && Exact(specs[j], some - {rowid}, trees[j])
      {
        RowRemoved(specs[k], some, trees[k], rowid);
        var key := KeyOfRow(specs[k], rowid, row);
        trees := trees[k := Without(trees[k], key)];
      }
    }

    method Insert(row: seq<Col>) returns (rowid: nat)
      requires Consistent() && RowFitsAll(specs, row) && nextRowid < TWO_64
      modifies this
      ensures Consistent() && rowid == old(nextRowid) && rowid !in old(rows) && rows == old(rows)[rowid := row]
      ensures nextRowid == rowid + 1
    {
      rowid := nextRowid;
      nextRowid := nextRowid + 1;
      ghost var was := rows;
      rows := rows[rowid := row];
      AddKeys(was, rowid, row);
      rowCount := rowCount + 1;
    }

    method Delete(rowid: nat) returns (existed: bool)
      requires Consistent()
      modifies this
      ensures Consistent() && existed == (rowid in old(rows)) && rows == old(rows) - {rowid} && nextRowid == old(nextRowid)
    {
      if rowid !in rows { return false; }
      ghost var was := rows;
      var row := rows[rowid];
      rows := rows - {rowid};
      RemoveKeys(was, rowid, row);
      rowCount := rowCount - 1;
      return true;
    }

    /** Old keys out, the row replaced, new keys in. */
    method Update(rowid: nat, fields: seq<Col>) returns (existed: bool)
      requires Consistent() && (rowid in rows ==> RowFitsAll(specs, Merge(rows[rowid], fields)))
      modifies this
      ensures Consistent() && existed == (rowid in old(rows))
      ensures rows == if existed then old(rows)[rowid := Merge(old(rows)[rowid], fields)] else old(rows)
      ensures existed && Ascend(old(rows)[rowid]) ==> MergedFrom(old(rows)[rowid], fields, rows[rowid])
      ensures nextRowid == old(nextRowid)
    {
      if rowid in rows && Ascend(rows[rowid]) { MergeReads(rows[rowid], fields); }
      if rowid !in rows { return false; }
      ghost var was := rows;
      var row := Merge(rows[rowid], fields);
      RemoveKeys(was, rowid, rows[rowid]);
      rows := rows[rowid := row];
      AddKeys(was - {rowid}, rowid, row);
      assert (was - {rowid})[rowid := row] == was[rowid := row];
      SameSize(was, rows);
      return true;
    }

    /** All matching rows leave the table at once, then their keys leave the indexes one row after another. */
    method DeleteWhere(pred: seq<Col> -> bool) returns (count: nat)
      requires Consistent()
      modifies this
      ensures Consistent()
      ensures forall id :: id in rows <==> id in old(rows) && !pred(old(rows)[id])
      ensures forall id :: id in rows ==> rows[id] == old(rows)[id]
      ensures nextRowid == old(nextRowid)
      ensures count == |old(rows)| - |rows|
    {
      ghost var was := rows;
      var deleted := map id | id in rows && pred(rows[id]) :: rows[id];
      rows := map id | id in rows && !pred(rows[id]) :: rows[id];
      count := |deleted|;
      Parted(was, pred, rows, deleted);
      rowCount := rowCount - count;
      RemoveAll(deleted, rows);
    }

    method RemoveAll(gone: Rows, ghost kept: Rows)
      requires (forall id :: id in gone ==> id !in kept) && ExactFor(kept + gone)
      modifies this`trees
      ensures ExactFor(kept)
    {
      var left := gone;
      while left != map[]
        invariant (forall id :: id in left ==> id !in kept) && ExactFor(kept + left)
        decreases |left|
      {
        var id :| id in left;
        WithoutOne(kept, left, id);
        RemoveKeys(kept + left, id, left[id]);
        left := left - {id};
      }
      assert kept + map[] == kept;
    }

    /** All matching rows are replaced at once, then the keys of one row after another. */
    method UpdateWhere(pred: seq<Col> -> bool, upd: seq<Col> -> seq<Col>) returns (count: nat)
      requires Consistent() && forall id :: id in rows && pred(rows[id]) ==> RowFitsAll(specs, upd(rows[id]))
      modifies this
      ensures Consistent()
      ensures rows == map id | id in old(rows) :: if pred(old(rows)[id]) then upd(old(rows)[id]) else old(rows)[id]
      ensures count == |set id | id in old(rows) && pred(old(rows)[id])| && nextRowid == old(nextRowid)
    {
      ghost var was := rows;
      var changed := map id | id in rows && pred(rows[id]) :: rows[id];
      rows := map id | id in rows :: if pred(rows[id]) then upd(rows[id]) else rows[id];
      count := |changed|;
      Picked(was, pred, changed);
      SameSize(was, rows);
      assert rows + changed == was;
      RekeyAll(changed, upd, rows);
    }

    /** Old key out, new key in, for one changed row after another. */
    method RekeyAll(changed: Rows, upd: seq<Col> -> seq<Col>, ghost after: Rows)
      requires changed.Keys <= after.Keys && ExactFor(after + changed)
      requires forall id :: id in changed ==> after[id] == upd(changed[id]) && RowFitsAll(specs, after[id])
      modifies this`trees
      ensures ExactFor(after)
    {
      var left := changed;
      while left != map[]
        invariant left.Keys <= after.Keys && ExactFor(after + left)
        invariant forall id :: id in left ==> after[id] == upd(left[id]) && RowFitsAll(specs, after[id])
        decreases |left|
      {
        var id :| id in left;
        assert id in after + left;
        RemoveKeys(after + left, id, left[id]);
        AddKeys((after + left) - {id}, id, upd(left[id]));
        assert ((after + left) - {id})[id := upd(left[id])] == after + (left - {id});
        left := left - {id};
      }
      assert after + map[] == after;
    }
  }

  lemma Picked(all: Rows, pred: seq<Col> -> bool, some: Rows)
    requires some == map id | id in all && pred(all[id]) :: all[id]
    ensures |some| == |set id | id in all && pred(all[id])|
  {
    assert some.Keys == set id | id in all && pred(all[id]);
    assert |some| == |some.Keys|;
  }

  lemma SameSize(a: Rows, b: Rows)
    requires a.Keys == b.Keys
    ensures |a| == |b|
  {
    assert |a| == |a.Keys| && |b| == |b.Keys|;
  }

  lemma WithoutOne(kept: Rows, left: Rows, id: nat)
    requires id in left && id !in kept
    ensures (kept + left) - {id} == kept + (left - {id}) && id in kept + left && (kept + left)[id] == left[id]
  {
  }

  lemma Parted(all: Rows, pred: seq<Col> -> bool, kept: Rows, gone: Rows)
    requires forall id :: id in gone <==> id in all && pred(all[id])
    requires forall id :: id in kept <==> id in all && !pred(all[id])
    requires (forall id :: id in gone ==> gone[id] == all[id]) && forall id :: id in kept ==> kept[id] == all[id]
    ensures kept + gone == all && |all| == |kept| + |gone| && forall id :: id in gone ==> id !in kept
  {
    assert kept + gone == all;
    Partition(all, kept, gone);
  }

  lemma Partition(all: Rows, kept: Rows, gone: Rows)
    requires kept.Keys !! gone.Keys && kept + gone == all
    ensures |all| == |kept| + |gone|
  {
    assert all.Keys == kept.Keys + gone.Keys;
    assert |all| == |all.Keys| && |kept| == |kept.Keys| && |gone| == |gone.Keys|;
  }
}
