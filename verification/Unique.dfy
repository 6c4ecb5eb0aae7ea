/**
 * Unique indexes under transactions that insert and delete: each insertion is checked
 * against the committed index and against what this transaction has inserted before.
 */
module Unique {
  import opened Bytes
  import opened Values
  import opened BTree
  import opened BTreeLeaves
  import opened BTreeReader
  import opened IndexKey
  import opened IndexTree
  import opened IndexReader
  import opened IndexFind
  import opened Store

  /** The column types of each unique index of the table. */
  type Specs = seq<seq<Type>>

  /** A row as its indexes see it: for each index the values of its columns, null where absent. */
  type IndexedRow = seq<seq<Value>>
  type Rows = map<nat, IndexedRow>

  /** Typed as declared: every value null, or indexable in its column. */
  predicate TypedRow(specs: Specs, row: IndexedRow) {
    |row| == |specs| && forall k :: 0 <= k < |specs| ==> TypedTuple(specs[k], row[k])
  }

  predicate TypedTuple(types: seq<Type>, vals: seq<Value>) {
    |types| == |vals| && forall i :: 0 <= i < |vals| ==> vals[i].Null? || Indexable(types[i], vals[i])
  }

  lemma TypedEncodes(types: seq<Type>, vals: seq<Value>)
    requires TypedTuple(types, vals)
    ensures Unconverted(types, vals) && (TuplePrefix(types, vals).Some? <==> TupleIndexable(types, vals))
  {
    EncodedWhenPresent(types, vals);
    if TupleIndexable(types, vals) { TupleEncodes(types, vals); }
    if TuplePrefix(types, vals).Some? {
      forall i | 0 <= i < |vals| ensures Indexable(types[i], vals[i]) {
      }
    }
  }

  function Prefix(types: seq<Type>, vals: seq<Value>): Option<seq<Byte>>
    requires TypedTuple(types, vals)
  {
    TypedEncodes(types, vals);
    TuplePrefix(types, vals)
  }

  ghost predicate AllTyped(specs: Specs, rows: Rows) {
    forall r :: r in rows ==> TypedRow(specs, rows[r])
  }

  /** The key a row has in an index. */
  function KeyFor(types: seq<Type>, vals: seq<Value>, rowid: nat): Option<seq<Byte>>
    requires TypedTuple(types, vals)
  {
    match Prefix(types, vals)
    case None => None
    case Some(p) => Some(p + Be(rowid, 8))
  }

  /** The keys index `k` holds for the rows. */
  ghost predicate InIndex(specs: Specs, rows: Rows, k: nat, key: seq<Byte>)
    requires k < |specs| && AllTyped(specs, rows)
  {
    exists r :: r in rows && TypedRow(specs, rows[r]) && KeyFor(specs[k], rows[r][k], r) == Some(key)
  }

  /** No two rows have the same tuple in a unique index, unless a component is null. */
  ghost predicate Unique(specs: Specs, rows: Rows)
    requires AllTyped(specs, rows)
  {
    forall k, r, s :: 0 <= k < |specs| && r in rows && s in rows && r != s ==>
      !(TupleIndexable(specs[k], rows[r][k]) && rows[r][k] == rows[s][k])
  }

  /** Scanning index `k` for the tuple's encoding meets a row with that tuple, and only such a row. */
  lemma ScanMeetsTuple(specs: Specs, rows: Rows, k: nat, vals: seq<Value>)
    requires AllTyped(specs, rows) && k < |specs| && TypedTuple(specs[k], vals) && Prefix(specs[k], vals).Some?
    ensures (exists key :: InIndex(specs, rows, k, key) && Prefix(specs[k], vals).value <= key)
            <==> exists r :: r in rows && rows[r][k] == vals
  {
    var types, p := specs[k], Prefix(specs[k], vals).value;
    TypedEncodes(types, vals);
    if key :| InIndex(specs, rows, k, key) && p <= key {
      var r :| r in rows && TypedRow(specs, rows[r]) && KeyFor(types, rows[r][k], r) == Some(key);
      SamePrefix(types, vals, rows[r][k], Be(r, 8));
    }
    if r :| r in rows && rows[r][k] == vals {
      assert TypedRow(specs, rows[r]);
      SamePrefix(types, vals, rows[r][k], Be(r, 8));
      assert InIndex(specs, rows, k, KeyFor(types, rows[r][k], r).value);
    }
  }

  lemma SamePrefix(types: seq<Type>, vals: seq<Value>, w: seq<Value>, tail: seq<Byte>)
    requires TypedTuple(types, vals) && TypedTuple(types, w) && Prefix(types, vals).Some? && Prefix(types, w).Some?
    ensures Prefix(types, vals).value <= Prefix(types, w).value + tail <==> vals == w
    ensures Prefix(types, vals) == Prefix(types, w) <==> vals == w
  {
    TypedEncodes(types, vals);
    TypedEncodes(types, w);
    assert types[..|vals|] == types && w[..|vals|] == w;
    PrefixMatches(types, vals, w, tail);
    PrefixMatches(types, vals, w, []);
    assert Prefix(types, w).value + [] == Prefix(types, w).value;
  }

  // ----- the committed index trees -----

  /** A stored index tree as a ghost: the tree and its height. */
  datatype StoredTree = StoredTree(t: Tree, h: nat)

  /** The reader stands on a stored tree with exactly the keys of the rows in index `k`. */
  ghost predicate Serves(reader: IndexTreeReader, x: StoredTree, specs: Specs, rows: Rows, k: nat)
    requires k < |specs| && AllTyped(specs, rows)
    reads reader, reader.guard, reader.guard.file
  {
    && reader.guard.Valid() && IndexStored(reader.guard.View(), reader.root, x.t, x.h, reader.guard.Next())
    && forall key :: key in Keys(TreeRows(x.t)) <==> InIndex(specs, rows, k, key)
  }

  /** One reader on each unique index of the committed rows. */
  ghost predicate AllServed(readers: seq<IndexTreeReader>, trees: seq<StoredTree>, specs: Specs, rows: Rows)
    requires AllTyped(specs, rows)
    reads set r: IndexTreeReader | r in readers :: r
    reads set r: IndexTreeReader | r in readers :: r.guard
    reads set r: IndexTreeReader | r in readers :: r.guard.file
  {
    |readers| == |trees| == |specs| && forall k :: 0 <= k < |specs| ==>
      assert readers[k] in readers; Serves(readers[k], trees[k], specs, rows, k)
  }

  /** Tuples short enough for their keys to fit a branch entry. */
  predicate ShortRow(specs: Specs, row: IndexedRow)
    requires TypedRow(specs, row)
  {
    forall k :: 0 <= k < |specs| && Prefix(specs[k], row[k]).Some? ==> |Prefix(specs[k], row[k]).value| + 8 <= BRANCH_KEY_MAX
  }

  predicate AllShort(specs: Specs, rows: seq<IndexedRow>) {
    forall i :: 0 <= i < |rows| ==> TypedRow(specs, rows[i]) && ShortRow(specs, rows[i])
  }

  /** A prefix scan of the committed index: it meets a key exactly when a committed row has the tuple. */
  method CommittedHas(reader: IndexTreeReader, prefix: seq<Byte>, ghost x: StoredTree,
                      ghost specs: Specs, ghost rows: Rows, ghost k: nat, ghost vals: seq<Value>)
      returns (has: bool)
    requires k < |specs| && AllTyped(specs, rows) && Serves(reader, x, specs, rows, k)
    requires TypedTuple(specs[k], vals) && Prefix(specs[k], vals) == Some(prefix) && |prefix| <= BRANCH_KEY_MAX
    ensures has <==> exists r :: r in rows && rows[r][k] == vals
  {
    ScanMeetsTuple(specs, rows, k, vals);
    FringeSorted(x.t, x.h, 0, RANKS, INDEX_BRANCH_KEYS, 1);
    SortedKeys(TreeRows(x.t));
    MatchingKeys(Keys(TreeRows(x.t)), prefix);
    ghost var met := Matching(Keys(TreeRows(x.t)), prefix);
    var got := reader.ScanPrefix(prefix, None, x.t, x.h);
    has := got.result != [];
    assert has ==> met[0] in met;
  }

  // ----- when a row must be accepted -----

  /** A tuple is encoded exactly when none of its values is null. */
  lemma EncodedWithoutNull(types: seq<Type>, vals: seq<Value>)
    requires TypedTuple(types, vals)
    ensures Prefix(types, vals).Some? <==> forall i :: 0 <= i < |vals| ==> !vals[i].Null?
  {
    TypedEncodes(types, vals);
    if forall i :: 0 <= i < |vals| ==> !vals[i].Null? {
      assert forall i :: 0 <= i < |vals| ==> Indexable(types[i], vals[i]);
    } else {
      var i :| 0 <= i < |vals| && vals[i].Null?;
      assert !Indexable(types[i], vals[i]);
    }
  }

  /**
   * Index `k` already has the row's tuple, none of it null: in a committed row, or in a row that
   * passed the check earlier in this transaction.
   */
  ghost predicate Occupied(committed: Rows, passed: seq<IndexedRow>, k: nat, row: IndexedRow) {
    && k < |row| && (forall i :: 0 <= i < |row[k]| ==> !row[k][i].Null?)
    && ((exists r :: r in committed && k < |committed[r]| && committed[r][k] == row[k]) || InPassed(passed, k, row[k]))
  }

  ghost predicate InPassed(passed: seq<IndexedRow>, k: nat, vals: seq<Value>) {
    exists q :: q in passed && k < |q| && q[k] == vals
  }

  /** The row has to be taken: its id is free and no unique index has its tuple. */
  ghost predicate Acceptable(committed: Rows, passed: seq<IndexedRow>, overlay: Rows, rowid: nat, row: IndexedRow) {
    rowid !in overlay && forall k :: 0 <= k < |row| ==> !Occupied(committed, passed, k, row)
  }

  /** The tuples recorded are those of the rows that passed. */
  ghost predicate Recorded(specs: Specs, seen: seq<set<seq<Byte>>>, passed: seq<IndexedRow>) {
    && |seen| == |specs| && (forall q :: q in passed ==> TypedRow(specs, q))
    && forall k, t :: 0 <= k < |specs| ==> (t in seen[k] <==> RecordedBy(specs, passed, k, t))
  }

  ghost predicate RecordedBy(specs: Specs, passed: seq<IndexedRow>, k: nat, t: seq<Byte>)
    requires k < |specs|
  {
    exists q :: q in passed && TypedRow(specs, q) && Prefix(specs[k], q[k]) == Some(t)
  }

  /** Every row of the overlay was committed before, or was recorded when it was inserted. */
  ghost predicate Traced(specs: Specs, committed: Rows, overlay: Rows, seen: seq<set<seq<Byte>>>)
    requires AllTyped(specs, overlay) && AllTyped(specs, committed) && |seen| == |specs|
  {
    forall r :: r in overlay ==>
      (r in committed && committed[r] == overlay[r])
      || forall k :: 0 <= k < |specs| && Prefix(specs[k], overlay[r][k]).Some? ==> Prefix(specs[k], overlay[r][k]).value in seen[k]
  }

  /** What the check of one index looks at is whether the tuple is there. */
  lemma OccupiedExactly(specs: Specs, committed: Rows, seen: seq<set<seq<Byte>>>, passed: seq<IndexedRow>, row: IndexedRow, k: nat)
    requires Recorded(specs, seen, passed) && AllTyped(specs, committed) && TypedRow(specs, row) && k < |specs|
    ensures Occupied(committed, passed, k, row) <==>
      Prefix(specs[k], row[k]).Some? &&
      ((exists r :: r in committed && committed[r][k] == row[k]) || Prefix(specs[k], row[k]).value in seen[k])
  {
    EncodedWithoutNull(specs[k], row[k]);
    assert forall r :: r in committed ==> TypedRow(specs, committed[r]);
    if Prefix(specs[k], row[k]).Some? { PassedExactly(specs, seen, passed, row, k); }
  }

  lemma PassedExactly(specs: Specs, seen: seq<set<seq<Byte>>>, passed: seq<IndexedRow>, row: IndexedRow, k: nat)
    requires Recorded(specs, seen, passed) && TypedRow(specs, row) && k < |specs| && Prefix(specs[k], row[k]).Some?
    ensures InPassed(passed, k, row[k]) <==> Prefix(specs[k], row[k]).value in seen[k]
  {
    var t := Prefix(specs[k], row[k]).value;
    if t in seen[k] {
      assert RecordedBy(specs, passed, k, t);
      var q :| q in passed && TypedRow(specs, q) && Prefix(specs[k], q[k]) == Some(t);
      SamePrefix(specs[k], row[k], q[k], []);
    }
    if q :| q in passed && k < |q| && q[k] == row[k] {
      assert TypedRow(specs, q) && RecordedBy(specs, passed, k, t);
    }
  }

  /** `seen` with the tuples of one more row. */
  ghost predicate Grown(specs: Specs, was: seq<set<seq<Byte>>>, seen: seq<set<seq<Byte>>>, row: IndexedRow)
    requires TypedRow(specs, row)
  {
    |was| == |seen| == |specs| && forall k :: 0 <= k < |specs| ==>
      seen[k] == was[k] + (if Prefix(specs[k], row[k]).Some? then {Prefix(specs[k], row[k]).value} else {})
  }

  lemma RecordedMore(specs: Specs, was: seq<set<seq<Byte>>>, passed: seq<IndexedRow>, seen: seq<set<seq<Byte>>>, row: IndexedRow)
    requires TypedRow(specs, row) && Recorded(specs, was, passed) && Grown(specs, was, seen, row)
    ensures Recorded(specs, seen, passed + [row])
  {
    forall k, t | 0 <= k < |specs| ensures t in seen[k] <==> RecordedBy(specs, passed + [row], k, t) {
      if RecordedBy(specs, passed, k, t) {
        var q :| q in passed && TypedRow(specs, q) && Prefix(specs[k], q[k]) == Some(t);
        assert q in passed + [row];
      }
      assert row in passed + [row];
    }
  }

  lemma TracedMore(specs: Specs, committed: Rows, overlay: Rows, was: seq<set<seq<Byte>>>, seen: seq<set<seq<Byte>>>, row: IndexedRow)
    requires TypedRow(specs, row) && Grown(specs, was, seen, row)
    requires AllTyped(specs, overlay) && AllTyped(specs, committed) && Traced(specs, committed, overlay, was)
    ensures Traced(specs, committed, overlay, seen)
  {
    assert forall k, t :: 0 <= k < |specs| && t in was[k] ==> t in seen[k];
  }

  /**
   * The first `n` rows, each acceptable in its turn, are in the overlay under consecutive ids
   * from `firstId` on; nothing else in it has changed.
   */
  ghost predicate InTurn(committed: Rows, passed: seq<IndexedRow>, was: Rows, overlay: Rows, firstId: nat, rows: seq<IndexedRow>, n: nat) {
    && n <= |rows|
    && (forall i :: 0 <= i < n ==> Acceptable(committed, passed + rows[..i], was, firstId + i, rows[i]))
    && (forall id :: id in overlay <==> id in was || firstId <= id < firstId + n)
    && forall id :: id in overlay ==> overlay[id] == if firstId <= id < firstId + n then rows[id - firstId] else was[id]
  }

  /** After the first `n` rows the next cannot be taken. */
  ghost predicate Refused(committed: Rows, passed: seq<IndexedRow>, was: Rows, firstId: nat, rows: seq<IndexedRow>, n: nat) {
    n < |rows| && !Acceptable(committed, passed + rows[..n], was, firstId + n, rows[n])
  }

  lemma OneMore(committed: Rows, passed: seq<IndexedRow>, was: Rows, overlay: Rows, firstId: nat, rows: seq<IndexedRow>, n: nat)
    requires n < |rows| && InTurn(committed, passed, was, overlay, firstId, rows, n)
    ensures var p := passed + rows[..n];
            p + [rows[n]] == passed + rows[..n + 1]
            && (Acceptable(committed, p, overlay, firstId + n, rows[n]) <==> !Refused(committed, passed, was, firstId, rows, n))
    ensures !Refused(committed, passed, was, firstId, rows, n) ==>
            InTurn(committed, passed, was, overlay[firstId + n := rows[n]], firstId, rows, n + 1)
  {
  }

  // ----- one transaction -----

  datatype Verdict = Inserted | Violation(index: nat) | IdTaken

  class UniqueTx {
    const specs: Specs
    /** The rows committed before; checks read them only through their index trees. */
    var committed: Rows
    var overlay: Rows
    /** For each index the tuples inserted so far in this transaction. */
    var seen: seq<set<seq<Byte>>>
    /** The rows that passed the check so far in this transaction, whatever became of them. */
    ghost var passed: seq<IndexedRow>

    ghost predicate Valid()
      reads this
    {
      && |seen| == |specs| && AllTyped(specs, committed) && AllTyped(specs, overlay)
      && Unique(specs, committed) && Unique(specs, overlay)
      && Traced(specs, committed, overlay, seen) && Recorded(specs, seen, passed)
    }

    constructor (specs: Specs)
      ensures Valid() && this.specs == specs && committed == map[] && overlay == map[] && passed == []
    {
      this.specs, committed, overlay, seen, passed := specs, map[], map[], seq(|specs|, _ => {}), [];
    }

    /** Look for the tuples of a row in every unique index; the first that has one is named. */
    method Check(row: IndexedRow, readers: seq<IndexTreeReader>, ghost trees: seq<StoredTree>) returns (v: Verdict)
      requires Valid() && TypedRow(specs, row) && ShortRow(specs, row) && AllServed(readers, trees, specs, committed)
      ensures v == Inserted || v.Violation?
      ensures v == Inserted ==> forall k :: 0 <= k < |specs| ==> !Occupied(committed, passed, k, row)
      ensures v.Violation? ==> v.index < |specs| && Occupied(committed, passed, v.index, row)
                               && forall k :: 0 <= k < v.index ==> !Occupied(committed, passed, k, row)
    {
      for k := 0 to |specs|
        invariant forall j :: 0 <= j < k ==> !Occupied(committed, passed, j, row)
      {
        var prefix := Prefix(specs[k], row[k]);
        OccupiedExactly(specs, committed, seen, passed, row, k);
        if prefix.Some? {
          var has := CommittedHas(readers[k], prefix.value, trees[k], specs, committed, k, row[k]);
          if has || prefix.value in seen[k] { return Violation(k); }
        }
      }
      return Inserted;
    }

    /** Check every unique index; record the row only if none has its tuple. */
    method Enforce(row: IndexedRow, readers: seq<IndexTreeReader>, ghost trees: seq<StoredTree>) returns (v: Verdict)
      requires Valid() && TypedRow(specs, row) && ShortRow(specs, row) && AllServed(readers, trees, specs, committed)
      modifies this`seen, this`passed
      ensures Valid() && (v == Inserted || v.Violation?)
      ensures v == Inserted <==> forall k :: 0 <= k < |specs| ==> !Occupied(committed, old(passed), k, row)
      ensures v == Inserted ==> passed == old(passed) + [row] && Grown(specs, old(seen), seen, row)
      ensures v.Violation? ==> passed == old(passed) && seen == old(seen)
      ensures v.Violation? ==> v.index < |specs| && Occupied(committed, old(passed), v.index, row)
                               && forall k :: 0 <= k < v.index ==> !Occupied(committed, old(passed), k, row)
    {
      v := Check(row, readers, trees);
      if v == Inserted {
        var grown := Record(row);
        TracedMore(specs, committed, overlay, seen, grown, row);
        RecordedMore(specs, seen, passed, grown, row);
        seen, passed := grown, passed + [row];
      }
    }

    method Record(row: IndexedRow) returns (grown: seq<set<seq<Byte>>>)
      requires |seen| == |specs| && TypedRow(specs, row)
      ensures Grown(specs, seen, grown, row)
    {
      grown := [];
      for k := 0 to |specs|
        invariant |grown| == k && forall j :: 0 <= j < k ==>
          grown[j] == seen[j] + (if Prefix(specs[j], row[j]).Some? then {Prefix(specs[j], row[j]).value} else {})
      {
        var prefix := Prefix(specs[k], row[k]);
        grown := grown + [seen[k] + (if prefix.Some? then {prefix.value} else {})];
      }
    }

    /**
     * A row is inserted exactly when its id is free and no unique index has its tuple; a
     * violation names the first index that has. A refused row changes no row, and is recorded
     * only when it was refused for its id.
     */
    method Insert(rowid: nat, row: IndexedRow, readers: seq<IndexTreeReader>, ghost trees: seq<StoredTree>) returns (v: Verdict)
      requires Valid() && TypedRow(specs, row) && ShortRow(specs, row) && AllServed(readers, trees, specs, committed)
      modifies this`seen, this`passed, this`overlay
      ensures Valid() && AllServed(readers, trees, specs, committed)
      ensures v == Inserted <==> Acceptable(committed, old(passed), old(overlay), rowid, row)
      ensures v.Violation? ==> v.index < |specs| && Occupied(committed, old(passed), v.index, row)
                               && forall k :: 0 <= k < v.index ==> !Occupied(committed, old(passed), k, row)
      ensures v == IdTaken ==> rowid in old(overlay) && forall k :: 0 <= k < |specs| ==> !Occupied(committed, old(passed), k, row)
      ensures overlay == if v == Inserted then old(overlay)[rowid := row] else old(overlay)
      ensures passed == if v.Violation? then old(passed) else old(passed) + [row]
    {
      ghost var was := seen;
      v := Enforce(row, readers, trees);
      if v.Violation? { return; }
      if rowid in overlay { return IdTaken; }
      NewRow(specs, committed, overlay, was, seen, old(passed), rowid, row);
      overlay := overlay[rowid := row];
    }

    /** A deleted tuple stays recorded: the same transaction cannot insert it again. */
    method Delete(rowid: nat) returns (existed: bool)
      requires Valid()
      modifies this`overlay
      ensures Valid() && existed == (rowid in old(overlay)) && overlay == old(overlay) - {rowid}
    {
      existed := rowid in overlay;
      overlay := overlay - {rowid};
    }

    /** The next row of many: inserted exactly when it is acceptable after those before it. */
    method InsertNext(firstId: nat, rows: seq<IndexedRow>, i: nat, readers: seq<IndexTreeReader>, ghost trees: seq<StoredTree>,
                      ghost before: seq<IndexedRow>, ghost was: Rows)
        returns (ok: bool)
      requires Valid() && i < |rows| && AllShort(specs, rows)
      requires AllServed(readers, trees, specs, committed)
      requires passed == before + rows[..i] && InTurn(committed, before, was, overlay, firstId, rows, i)
      modifies this`seen, this`passed, this`overlay
      ensures Valid() && (ok <==> !Refused(committed, before, was, firstId, rows, i))
      ensures ok ==> passed == before + rows[..i + 1]
      ensures InTurn(committed, before, was, overlay, firstId, rows, if ok then i + 1 else i)
      ensures AllServed(readers, trees, specs, committed)
    {
      OneMore(committed, before, was, overlay, firstId, rows, i);
      var v := Insert(firstId + i, rows[i], readers, trees);
      ok := v == Inserted;
    }

    /**
     * Row after row under consecutive ids, up to the first that is refused: the rows before it
     * stay inserted, no other row changes.
     */
    method InsertMany(firstId: nat, rows: seq<IndexedRow>, readers: seq<IndexTreeReader>, ghost trees: seq<StoredTree>)
        returns (ok: bool, ghost n: nat)
      requires Valid() && AllShort(specs, rows) && AllServed(readers, trees, specs, committed)
      modifies this`seen, this`passed, this`overlay
      ensures Valid() && n <= |rows| && (ok <==> n == |rows|)
      ensures InTurn(committed, old(passed), old(overlay), overlay, firstId, rows, n)
      ensures n == |rows| || Refused(committed, old(passed), old(overlay), firstId, rows, n)
    {
      ghost var before, was := passed, overlay;
      assert before + rows[..0] == before;
      n := 0;
      for i := 0 to |rows|
        invariant n == i && AllServed(readers, trees, specs, committed) && Valid() && passed == before + rows[..i]
        invariant InTurn(committed, before, was, overlay, firstId, rows, i)
      {
        ok := InsertNext(firstId, rows, i, readers, trees, before, was);
        if !ok { return false, n; }
        n := n + 1;
      }
      return true, n;
    }

    /** Ends the transaction and starts the next one. */
    method Commit()
      requires Valid()
      modifies this
      ensures Valid() && committed == old(overlay) && overlay == committed && passed == []
    {
      committed := overlay;
      seen, passed := seq(|specs|, _ => {}), [];
    }

    method Abandon()
      requires Valid()
      modifies this
      ensures Valid() && committed == old(committed) && overlay == committed && passed == []
    {
      overlay := committed;
      seen, passed := seq(|specs|, _ => {}), [];
    }
  }

  lemma NewRow(specs: Specs, committed: Rows, overlay: Rows, was: seq<set<seq<Byte>>>, seen: seq<set<seq<Byte>>>,
               passed: seq<IndexedRow>, rowid: nat, row: IndexedRow)
    requires |was| == |specs| && AllTyped(specs, committed) && AllTyped(specs, overlay) && TypedRow(specs, row)
    requires Unique(specs, overlay) && Traced(specs, committed, overlay, was) && Recorded(specs, was, passed)
    requires Grown(specs, was, seen, row) && Acceptable(committed, passed, overlay, rowid, row)
    ensures AllTyped(specs, overlay[rowid := row]) && Unique(specs, overlay[rowid := row])
    ensures Traced(specs, committed, overlay[rowid := row], seen)
  {
    forall k | 0 <= k < |specs| && Prefix(specs[k], row[k]).Some?
      ensures Prefix(specs[k], row[k]).value !in was[k] && forall r :: r in committed ==> committed[r][k] != row[k]
    {
      OccupiedExactly(specs, committed, was, passed, row, k);
    }
    NewRowUnique(specs, committed, overlay, was, rowid, row);
    TracedMore(specs, committed, overlay, was, seen, row);
    TracedRow(specs, committed, overlay, seen, rowid, row);
  }

  lemma TracedRow(specs: Specs, committed: Rows, overlay: Rows, seen: seq<set<seq<Byte>>>, rowid: nat, row: IndexedRow)
    requires AllTyped(specs, overlay) && AllTyped(specs, committed) && |seen| == |specs| && Traced(specs, committed, overlay, seen)
    requires TypedRow(specs, row)
    requires forall k :: 0 <= k < |specs| && Prefix(specs[k], row[k]).Some? ==> Prefix(specs[k], row[k]).value in seen[k]
    ensures AllTyped(specs, overlay[rowid := row]) && Traced(specs, committed, overlay[rowid := row], seen)
  {
  }

  /** A row whose tuples are neither committed nor recorded collides with no row of the overlay. */
  lemma NewRowUnique(specs: Specs, committed: Rows, overlay: Rows, seen: seq<set<seq<Byte>>>, rowid: nat, row: IndexedRow)
    requires |seen| == |specs| && AllTyped(specs, committed) && AllTyped(specs, overlay) && TypedRow(specs, row)
    requires Unique(specs, overlay) && rowid !in overlay
    requires forall r :: r in overlay ==>
      (r in committed && committed[r] == overlay[r])
      || forall k :: 0 <= k < |specs| && Prefix(specs[k], overlay[r][k]).Some? ==> Prefix(specs[k], overlay[r][k]).value in seen[k]
    requires forall k :: 0 <= k < |specs| && Prefix(specs[k], row[k]).Some? ==>
      && Prefix(specs[k], row[k]).value !in seen[k]
      && forall r :: r in committed ==> committed[r][k] != row[k]
    ensures AllTyped(specs, overlay[rowid := row]) && Unique(specs, overlay[rowid := row])
  {
    forall k, r | 0 <= k < |specs| && r in overlay
      ensures !(TupleIndexable(specs[k], row[k]) && row[k] == overlay[r][k])
    {
      TypedEncodes(specs[k], row[k]);
    }
  }
}
