/** The cursor in index order: over the committed pages, and over a transaction's own view. */
module IndexCursor {
  import opened Seqs
  import opened Bytes
  import opened Overflow
  import opened Values
  import opened BTree
  import opened BTreeLeaves
  import opened BTreePages
  import opened BTreeStored
  import opened BTreeRuns
  import opened BTreeReader
  import opened Cursor
  import opened Store
  import opened IndexKey
  import opened IndexTree
  import opened IndexReader
  import opened RowCodec
  import opened IndexedTable
  import opened IndexFind

  /** A batch as the caller gets it: the rows' bytes and the key to resume after. */
  datatype KeyPage = KeyPage(rows: seq<seq<Byte>>, last: Option<seq<Byte>>)

  function Datas(list: seq<BTree.Entry>): (s: seq<seq<Byte>>)
    ensures |s| == |list| && forall i :: 0 <= i < |s| ==> s[i] == list[i].data
  {
    seq(|list|, i requires 0 <= i < |list| => list[i].data)
  }

  lemma DatasConcat(a: seq<BTree.Entry>, b: seq<BTree.Entry>)
    ensures Datas(a + b) == Datas(a) + Datas(b)
  {
  }

  /** The batch `b`, its bound given as the key it is the rank of. */
  ghost predicate Shows(p: KeyPage, b: Batch) {
    p.rows == Datas(b.rows) && BoundOk(p.last) && RankOf(p.last) == b.last
  }

  // ----- over the committed pages -----

  /** The row a key leads to, if there is one and it passes. */
  function FetchRow(list: seq<BTree.Entry>, passes: seq<Byte> -> bool, key: seq<Byte>): seq<BTree.Entry>
    requires |key| >= 8
  {
    match RowsSearch(list, RowidOf(key))
    case Found(bytes) => if passes(bytes) then [BTree.Entry(RowidOf(key), bytes)] else []
    case NotFound => []
  }

  /** What an index entry leads to. */
  function Fetch(list: seq<BTree.Entry>, passes: seq<Byte> -> bool): BTree.Entry -> seq<BTree.Entry> {
    (e: BTree.Entry) => if |KeyOf(e)| >= 8 then FetchRow(list, passes, KeyOf(e)) else []
  }

  /** Searching the rows of a tree, reassembled or not. */
  lemma WholeSearch(rows: seq<BTree.Entry>, over: map<nat, OverPage>, id: nat)
    requires Sorted(rows) && Readable(rows, over)
    ensures BTreeRuns.Lookup(rows, over, id) == Got(RowsSearch(Whole(rows, over), id))
  {
    var pos := LowerBound(rows, id);
    BoundUnique(Whole(rows, over), id, pos);
  }

  lemma SearchIsLookup(t: Tree, h: nat, next: nat, over: map<nat, OverPage>, id: nat)
    requires Shaped(t) && Wf(t, h, 0, MAX_ID, ROW_BRANCH_KEYS, 1) && Readable(TreeRows(t), over) && id < MAX_ID
    ensures DoSearch(State(t, next, over), id) == Got(RowsSearch(Whole(TreeRows(t), over), id))
  {
    SearchRefines(t, id, h, 0, MAX_ID, ROW_BRANCH_KEYS, 1);
    FringeSorted(t, h, 0, MAX_ID, ROW_BRANCH_KEYS, 1);
    WholeSearch(TreeRows(t), over, id);
  }

  /** Every key names a possible rowid. */
  ghost predicate RowidsOk(entries: seq<BTree.Entry>) {
    forall e :: e in entries ==> CodedEntry(e) && RowidOf(KeyOf(e)) < MAX_ID
  }

  method FetchRows(table: BTreeReader, keys: seq<seq<Byte>>, passes: seq<Byte> -> bool, ghost entries: seq<BTree.Entry>,
                   ghost t: Tree, ghost h: nat, ghost over: map<nat, OverPage>)
      returns (rows: seq<seq<Byte>>)
    requires table.guard.Valid() && Stored(table.guard.View(), table.root, t, h, table.guard.Next())
    requires over == Over(table.guard.View()) && keys == Keys(entries) && RowidsOk(entries)
    ensures rows == Datas(Gather(entries, Fetch(Whole(TreeRows(t), over), passes)))
  {
    ghost var list := Whole(TreeRows(t), over);
    rows := [];
    assert entries[..0] == [];
    for i := 0 to |keys|
      invariant rows == Datas(Gather(entries[..i], Fetch(list, passes)))
    {
      FetchNext(entries, i, list, passes);
      var found := FindRow(table, keys[i], t, h, over);
      if found.Found? && passes(found.data) {
        rows := rows + [found.data];
      }
    }
    assert entries[..|keys|] == entries;
  }

  method FindRow(table: BTreeReader, key: seq<Byte>, ghost t: Tree, ghost h: nat, ghost over: map<nat, OverPage>) returns (found: Found)
    requires table.guard.Valid() && Stored(table.guard.View(), table.root, t, h, table.guard.Next())
    requires over == Over(table.guard.View()) && |key| >= 8 && RowidOf(key) < MAX_ID
    ensures found == RowsSearch(Whole(TreeRows(t), over), RowidOf(key))
  {
    SearchIsLookup(t, h, table.guard.Next(), over, RowidOf(key));
    var answer := table.Search(RowidOf(key), t, h, over);
    found := answer.found;
  }

  lemma FetchNext(entries: seq<BTree.Entry>, i: nat, list: seq<BTree.Entry>, passes: seq<Byte> -> bool)
    requires i < |entries| && RowidsOk(entries)
    ensures |KeyOf(entries[i])| >= 8 && RowidOf(KeyOf(entries[i])) < MAX_ID
    ensures var found := RowsSearch(list, RowidOf(KeyOf(entries[i])));
            Datas(Gather(entries[..i + 1], Fetch(list, passes))) ==
            Datas(Gather(entries[..i], Fetch(list, passes))) + (if found.Found? && passes(found.data) then [found.data] else [])
  {
    GatherNext(entries, i, Fetch(list, passes));
    assert entries[i] in entries;
    FetchedData(list, passes, entries[i]);
  }

  lemma FetchedData(list: seq<BTree.Entry>, passes: seq<Byte> -> bool, e: BTree.Entry)
    requires |KeyOf(e)| >= 8
    ensures var found := RowsSearch(list, RowidOf(KeyOf(e)));
            Datas(Fetch(list, passes)(e)) == if found.Found? && passes(found.data) then [found.data] else []
  {
  }

  lemma GatherNext(list: seq<BTree.Entry>, i: nat, fetch: BTree.Entry -> seq<BTree.Entry>)
    requires i < |list|
    ensures Gather(list[..i + 1], fetch) == Gather(list[..i], fetch) + fetch(list[i])
    ensures Datas(Gather(list[..i + 1], fetch)) == Datas(Gather(list[..i], fetch)) + Datas(fetch(list[i]))
  {
    CutAround(list, i);
    GatherConcat(list[..i], [list[i]], fetch);
    assert Gather([list[i]], fetch) == fetch(list[i]) + [];
    DatasConcat(Gather(list[..i], fetch), fetch(list[i]));
  }

  /** One batch in index order: the next keys, the row of each, and the last key whether or not its row was kept. */
  method IndexScanBatch(index: IndexTreeReader, table: BTreeReader, after: Option<seq<Byte>>, dir: Dir, limit: nat,
                        passes: seq<Byte> -> bool,
                        ghost it: Tree, ghost ih: nat, ghost t: Tree, ghost h: nat, ghost over: map<nat, OverPage>)
      returns (r: ScanOutcome<KeyPage>)
    requires index.guard.Valid() && IndexStored(index.guard.View(), index.root, it, ih, index.guard.Next()) && BoundOk(after)
    requires table.guard.Valid() && Stored(table.guard.View(), table.root, t, h, table.guard.Next())
    requires over == Over(table.guard.View()) && RowidsOk(TreeRows(it))
    ensures r.Done? && Shows(r.result,
              IndexBatch(Listed(TreeRows(it), dir), dir, RankOf(after), limit, Fetch(Whole(TreeRows(t), over), passes)))
  {
    var got := index.ScanFromKey(after, dir, limit, it, ih);
    var keys := got.result.0;
    ghost var taken := TakenEntries(it, dir, after, limit, keys);
    var rows := FetchRows(table, keys, passes, taken, t, h, over);
    var p := KeyPage(rows, if |keys| >= limit && |keys| > 0 then Some(keys[|keys| - 1]) else None);
    BatchShown(Beyonds(it, dir, after), limit, Fetch(Whole(TreeRows(t), over), passes), taken, p);
    return Done(p);
  }

  lemma BatchShown(all: seq<BTree.Entry>, limit: nat, fetch: BTree.Entry -> seq<BTree.Entry>, taken: seq<BTree.Entry>, p: KeyPage)
    requires RowidsOk(taken) && taken == if |all| <= limit then all else all[..limit]
    requires p.rows == Datas(Gather(taken, fetch))
    requires p.last == if |taken| >= limit && |taken| > 0 then Some(KeyOf(taken[|taken| - 1])) else None
    ensures Shows(p, BatchOf(all, limit, fetch))
  {
    LastKey(taken, limit, p.last);
  }

  /** The entries the keys of a batch belong to. */
  lemma TakenEntries(it: Tree, dir: Dir, after: Option<seq<Byte>>, limit: nat, keys: seq<seq<Byte>>) returns (taken: seq<BTree.Entry>)
    requires BoundOk(after) && RowidsOk(TreeRows(it))
    requires var all := Keys(Beyonds(it, dir, after)); keys == if |all| <= limit then all else all[..limit]
    ensures var all := Beyonds(it, dir, after); taken == if |all| <= limit then all else all[..limit]
    ensures keys == Keys(taken) && RowidsOk(taken)
  {
    var all := Beyonds(it, dir, after);
    taken := if |all| <= limit then all else all[..limit];
    BeyondsCoded(it, dir, after);
    assert forall e :: e in taken ==> e in all;
  }

  lemma LastKey(taken: seq<BTree.Entry>, limit: nat, last: Option<seq<Byte>>)
    requires RowidsOk(taken)
    requires last == if |taken| >= limit && |taken| > 0 then Some(KeyOf(taken[|taken| - 1])) else None
    ensures BoundOk(last)
    ensures RankOf(last) == if |taken| < limit || taken == [] then None else Some(taken[|taken| - 1].id)
  {
    if taken != [] { assert taken[|taken| - 1] in taken; }
  }

  lemma BeyondsCoded(it: Tree, dir: Dir, after: Option<seq<Byte>>)
    requires BoundOk(after) && RowidsOk(TreeRows(it))
    ensures RowidsOk(Beyonds(it, dir, after))
  {
    var list := Listed(TreeRows(it), dir);
    CandidatesAre(list, dir, RankOf(after));
    forall e | e in list ensures e in TreeRows(it) { var i :| 0 <= i < |list| && list[i] == e; }
  }

  // ----- over a transaction's own view -----

  /** A row with its key in an index. */
  datatype Keyed = Keyed(key: seq<Byte>, data: seq<Byte>)

  /** The row's key in an index, from its bytes. */
  method KeyFromBytes(spec: IndexSpec, rowid: nat, data: seq<Byte>, ghost row: seq<Col>) returns (key: Option<seq<Byte>>)
    requires RowFits(rowid, row) && Ascend(row) && data == Encoded(rowid, row) && Fitting(spec, row)
    ensures key == KeyOfRow(spec, rowid, row)
  {
    var vals: seq<Value> := [];
    for i := 0 to |spec.cols|
      invariant vals == IndexedValues(spec, row)[..i]
    {
      var v := ValueFromBytes(data, spec.cols[i], rowid, row);
      vals := vals + [v];
    }
    assert vals == IndexedValues(spec, row);
    FittingEncodes(spec, row);
    var prefix := EncodeTuplePrefix(spec.types, vals);
    return if prefix.None? then None else Some(prefix.value + Be(rowid, 8));
  }

  method ValueFromBytes(data: seq<Byte>, col: nat, ghost rowid: nat, ghost row: seq<Col>) returns (v: Value)
    requires RowFits(rowid, row) && Ascend(row) && data == Encoded(rowid, row)
    ensures v == ValueOf(row, col)
  {
    ExtractAgrees(rowid, row, col);
    var stored := ExtractColumn(data, col);
    v := if stored.value.Some? then stored.value.value else Null;
  }

  /** A listed row that passes and has a key. */
  ghost predicate Indexes(spec: IndexSpec, rows: Rows, passes: seq<Byte> -> bool, e: BTree.Entry) {
    e.id in rows && Fitting(spec, rows[e.id]) && passes(e.data) && KeyOfRow(spec, e.id, rows[e.id]).Some?
  }

  ghost function KeyedRow(spec: IndexSpec, rows: Rows, passes: seq<Byte> -> bool, e: BTree.Entry): seq<Keyed> {
    if Indexes(spec, rows, passes, e) then [Keyed(KeyOfRow(spec, e.id, rows[e.id]).value, e.data)] else []
  }

  ghost function KeyedRows(list: seq<BTree.Entry>, spec: IndexSpec, rows: Rows, passes: seq<Byte> -> bool): seq<Keyed> {
    if list == [] then [] else KeyedRows(list[..|list| - 1], spec, rows, passes) + KeyedRow(spec, rows, passes, list[|list| - 1])
  }

  function Place(k: Keyed, ks: seq<Keyed>): seq<Keyed> {
    if ks == [] || !LexLess(ks[0].key, k.key) then [k] + ks else [ks[0]] + Place(k, ks[1..])
  }

  /** The keyed rows in key order. */
  function InKeyOrder(ks: seq<Keyed>): seq<Keyed> {
    if ks == [] then [] else Place(ks[0], InKeyOrder(ks[1..]))
  }

  function AsEntries(ks: seq<Keyed>): (s: seq<BTree.Entry>)
    requires forall k :: k in ks ==> |k.key| <= BRANCH_KEY_MAX
    ensures |s| == |ks| && forall i :: 0 <= i < |s| ==> s[i] == BTree.Entry(Rank(ks[i].key), ks[i].data)
  {
    seq(|ks|, i requires 0 <= i < |ks| => BTree.Entry(Rank(ks[i].key), ks[i].data))
  }

  ghost predicate KeysDiffer(ks: seq<Keyed>) {
    forall i, j :: 0 <= i < j < |ks| ==> ks[i].key != ks[j].key
  }

  ghost predicate Short(ks: seq<Keyed>) {
    forall k :: k in ks ==> |k.key| <= BRANCH_KEY_MAX
  }

  lemma {:induction false} Placed(k: Keyed, ks: seq<Keyed>)
    requires Short(ks) && |k.key| <= BRANCH_KEY_MAX && Sorted(AsEntries(ks)) && forall x :: x in ks ==> x.key != k.key
    ensures forall x :: x in Place(k, ks) <==> x == k || x in ks
    ensures Short(Place(k, ks)) && Sorted(AsEntries(Place(k, ks)))
  {
    if ks != [] {
      RankOrder(ks[0].key, k.key, BRANCH_KEY_MAX);
      RankOrder(k.key, ks[0].key, BRANCH_KEY_MAX);
      assert ks == [ks[0]] + ks[1..] && ks[0] in ks;
      if LexLess(ks[0].key, k.key) {
        assert AsEntries(ks)[1..] == AsEntries(ks[1..]);
        Placed(k, ks[1..]);
        FirstBelow(ks[0], ks[1..], Place(k, ks[1..]), k);
      } else {
        LexTotal(ks[0].key, k.key);
        PutInFront(k, ks);
      }
    }
  }

  lemma FirstBelow(x: Keyed, rest: seq<Keyed>, placed: seq<Keyed>, k: Keyed)
    requires Short([x] + rest) && Short(placed) && Sorted(AsEntries([x] + rest)) && Sorted(AsEntries(placed))
    requires |k.key| <= BRANCH_KEY_MAX && Rank(x.key) < Rank(k.key) && forall y :: y in placed <==> y == k || y in rest
    ensures Short([x] + placed) && Sorted(AsEntries([x] + placed))
  {
    forall y | y in placed ensures Rank(x.key) < Rank(y.key) {
      if y != k {
        var i :| 0 <= i < |rest| && rest[i] == y;
        BelowRest(x, rest, i);
      }
    }
    assert Short([x] + placed);
    assert AsEntries([x] + placed) == [BTree.Entry(Rank(x.key), x.data)] + AsEntries(placed);
    SortedCons(BTree.Entry(Rank(x.key), x.data), AsEntries(placed));
  }

  lemma BelowRest(x: Keyed, rest: seq<Keyed>, i: nat)
    requires Short([x] + rest) && Sorted(AsEntries([x] + rest)) && i < |rest|
    ensures |x.key| <= BRANCH_KEY_MAX && |rest[i].key| <= BRANCH_KEY_MAX && Rank(x.key) < Rank(rest[i].key)
  {
    assert ([x] + rest)[0] == x && ([x] + rest)[i + 1] == rest[i];
  }

  lemma SortedCons(e: BTree.Entry, list: seq<BTree.Entry>)
    requires Sorted(list) && forall i :: 0 <= i < |list| ==> e.id < list[i].id
    ensures Sorted([e] + list)
  {
  }

  lemma PutInFront(k: Keyed, ks: seq<Keyed>)
    requires ks != [] && Short(ks) && |k.key| <= BRANCH_KEY_MAX && Sorted(AsEntries(ks)) && Rank(k.key) < Rank(ks[0].key)
    ensures Short([k] + ks) && Sorted(AsEntries([k] + ks))
  {
    assert AsEntries([k] + ks) == [BTree.Entry(Rank(k.key), k.data)] + AsEntries(ks);
    SortedCons(BTree.Entry(Rank(k.key), k.data), AsEntries(ks));
  }

  lemma {:induction false} Ordered(ks: seq<Keyed>)
    requires Short(ks) && KeysDiffer(ks)
    ensures forall x :: x in InKeyOrder(ks) <==> x in ks
    ensures Short(InKeyOrder(ks)) && Sorted(AsEntries(InKeyOrder(ks)))
  {
    if ks != [] {
      assert ks == [ks[0]] + ks[1..];
      Ordered(ks[1..]);
      forall x | x in ks[1..] ensures x.key != ks[0].key { var i :| 0 <= i < |ks| - 1 && ks[1..][i] == x; }
      Placed(ks[0], InKeyOrder(ks[1..]));
    }
  }

  lemma OtherKey(spec: IndexSpec, rows: Rows, passes: seq<Byte> -> bool, e: BTree.Entry, x: BTree.Entry)
    requires Indexes(spec, rows, passes, e) && Indexes(spec, rows, passes, x) && e.id < TWO_64 && x.id < TWO_64 && e.id != x.id
    ensures KeyOfRow(spec, e.id, rows[e.id]) != KeyOfRow(spec, x.id, rows[x.id])
  {
    if KeyOfRow(spec, e.id, rows[e.id]) == KeyOfRow(spec, x.id, rows[x.id]) {
      KeysApart(spec, e.id, rows[e.id], x.id, rows[x.id]);
    }
  }

  /** Which keyed rows there are, and that their keys differ. */
  lemma KeyedRowsAre(list: seq<BTree.Entry>, spec: IndexSpec, rows: Rows, passes: seq<Byte> -> bool)
    requires Sorted(list) && forall e :: e in list ==> e.id < TWO_64
    ensures forall k :: k in KeyedRows(list, spec, rows, passes) <==>
      exists e :: e in list && Indexes(spec, rows, passes, e) && k == Keyed(KeyOfRow(spec, e.id, rows[e.id]).value, e.data)
    ensures KeysDiffer(KeyedRows(list, spec, rows, passes))
  {
    KeyedRowsIn(list, spec, rows, passes);
    KeyedRowsDiffer(list, spec, rows, passes);
  }

  lemma {:induction false} KeyedRowsIn(list: seq<BTree.Entry>, spec: IndexSpec, rows: Rows, passes: seq<Byte> -> bool)
    ensures forall k :: k in KeyedRows(list, spec, rows, passes) <==>
      exists e :: e in list && Indexes(spec, rows, passes, e) && k == Keyed(KeyOfRow(spec, e.id, rows[e.id]).value, e.data)
  {
    if list != [] {
      var n := |list| - 1;
      assert list == list[..n] + [list[n]];
      KeyedRowsIn(list[..n], spec, rows, passes);
    }
  }

  lemma {:induction false} KeyedRowsDiffer(list: seq<BTree.Entry>, spec: IndexSpec, rows: Rows, passes: seq<Byte> -> bool)
    requires Sorted(list) && forall e :: e in list ==> e.id < TWO_64
    ensures KeysDiffer(KeyedRows(list, spec, rows, passes))
  {
    if list != [] {
      var n := |list| - 1;
      assert list == list[..n] + [list[n]];
      KeyedRowsDiffer(list[..n], spec, rows, passes);
      if Indexes(spec, rows, passes, list[n]) { KeyNotYet(list[..n], spec, rows, passes, list[n]); }
    }
  }

  lemma KeyNotYet(list: seq<BTree.Entry>, spec: IndexSpec, rows: Rows, passes: seq<Byte> -> bool, x: BTree.Entry)
    requires Indexes(spec, rows, passes, x) && x.id < TWO_64 && forall e :: e in list ==> e.id < TWO_64 && e.id != x.id
    ensures forall k :: k in KeyedRows(list, spec, rows, passes) ==> k.key != KeyOfRow(spec, x.id, rows[x.id]).value
  {
    KeyedRowsIn(list, spec, rows, passes);
    forall k | k in KeyedRows(list, spec, rows, passes) ensures k.key != KeyOfRow(spec, x.id, rows[x.id]).value {
      var e :| e in list && Indexes(spec, rows, passes, e) && k == Keyed(KeyOfRow(spec, e.id, rows[e.id]).value, e.data);
      OtherKey(spec, rows, passes, e, x);
    }
  }

  /** What a transaction's index cursor windows: the passing rows by key. */
  ghost function ByKey(list: seq<BTree.Entry>, spec: IndexSpec, rows: Rows, passes: seq<Byte> -> bool): seq<Keyed> {
    InKeyOrder(KeyedRows(list, spec, rows, passes))
  }

  /** Rows of a table as its scan lists them, every indexed value of its type, keys short enough. */
  ghost predicate Keyable(list: seq<BTree.Entry>, spec: IndexSpec, rows: Rows) {
    && Lists(list, rows)
    && (forall id :: id in rows ==> id < TWO_64 && Fitting(spec, rows[id]))
    && forall id :: id in rows && KeyOfRow(spec, id, rows[id]).Some? ==> |KeyOfRow(spec, id, rows[id]).value| <= BRANCH_KEY_MAX
  }

  lemma ByKeySorted(list: seq<BTree.Entry>, spec: IndexSpec, rows: Rows, passes: seq<Byte> -> bool)
    requires Keyable(list, spec, rows)
    ensures var ks := ByKey(list, spec, rows, passes); Short(ks) && Sorted(AsEntries(ks))
  {
    ListedIds(list, spec, rows);
    KeyedRowsAre(list, spec, rows, passes);
    KeyedShort(list, spec, rows, passes);
    Ordered(KeyedRows(list, spec, rows, passes));
  }

  lemma ListedIds(list: seq<BTree.Entry>, spec: IndexSpec, rows: Rows)
    requires Keyable(list, spec, rows)
    ensures forall e :: e in list ==> e.id < TWO_64 && e.id in rows
  {
    forall e | e in list ensures e.id < TWO_64 && e.id in rows {
      var i :| 0 <= i < |list| && list[i] == e;
      assert ListedRow(list[i], rows);
    }
  }

  lemma KeyedShort(list: seq<BTree.Entry>, spec: IndexSpec, rows: Rows, passes: seq<Byte> -> bool)
    requires Keyable(list, spec, rows)
    ensures Short(KeyedRows(list, spec, rows, passes))
  {
    ListedIds(list, spec, rows);
    KeyedRowsAre(list, spec, rows, passes);
    forall k | k in KeyedRows(list, spec, rows, passes) ensures |k.key| <= BRANCH_KEY_MAX {
      var e :| e in list && Indexes(spec, rows, passes, e) && k == Keyed(KeyOfRow(spec, e.id, rows[e.id]).value, e.data);
    }
  }

  lemma KeyedIn(list: seq<BTree.Entry>, spec: IndexSpec, rows: Rows, passes: seq<Byte> -> bool, x: BTree.Entry)
    requires Keyable(list, spec, rows) && x in list && Indexes(spec, rows, passes, x)
    ensures Keyed(KeyOfRow(spec, x.id, rows[x.id]).value, x.data) in ByKey(list, spec, rows, passes)
  {
    ListedIds(list, spec, rows);
    KeyedRowsAre(list, spec, rows, passes);
    KeyedShort(list, spec, rows, passes);
    Ordered(KeyedRows(list, spec, rows, passes));
  }

  lemma KeyedFrom(list: seq<BTree.Entry>, spec: IndexSpec, rows: Rows, passes: seq<Byte> -> bool, k: Keyed) returns (x: BTree.Entry)
    requires Keyable(list, spec, rows) && k in ByKey(list, spec, rows, passes)
    ensures x in list && Indexes(spec, rows, passes, x) && k == Keyed(KeyOfRow(spec, x.id, rows[x.id]).value, x.data)
  {
    ListedIds(list, spec, rows);
    KeyedRowsAre(list, spec, rows, passes);
    KeyedShort(list, spec, rows, passes);
    Ordered(KeyedRows(list, spec, rows, passes));
    x :| x in list && Indexes(spec, rows, passes, x) && k == Keyed(KeyOfRow(spec, x.id, rows[x.id]).value, x.data);
  }

  /**
   * Which rows a transaction's index cursor lists: exactly those of its table that pass and have a
   * key, each under its key, the keys strictly rising.
   */
  lemma ByKeyIs(list: seq<BTree.Entry>, spec: IndexSpec, rows: Rows, passes: seq<Byte> -> bool)
    requires Keyable(list, spec, rows)
    ensures var ks := ByKey(list, spec, rows, passes);
            && (forall k :: k in ks <==> exists e :: e in list && passes(e.data) && HasKey(spec, rows, e, k))
            && forall i, j :: 0 <= i < j < |ks| ==> LexLess(ks[i].key, ks[j].key)
  {
    var ks := ByKey(list, spec, rows, passes);
    ListedIds(list, spec, rows);
    ByKeySorted(list, spec, rows, passes);
    forall k ensures k in ks <==> exists e :: e in list && passes(e.data) && HasKey(spec, rows, e, k) {
      if k in ks { var e := KeyedFrom(list, spec, rows, passes, k); assert HasKey(spec, rows, e, k); }
      if e :| e in list && passes(e.data) && HasKey(spec, rows, e, k) { KeyedIn(list, spec, rows, passes, e); }
    }
    forall i, j | 0 <= i < j < |ks| ensures LexLess(ks[i].key, ks[j].key) { KeysRise(ks, i, j); }
  }

  ghost predicate HasKey(spec: IndexSpec, rows: Rows, e: BTree.Entry, k: Keyed) {
    e.id in rows && Fitting(spec, rows[e.id]) && KeyOfRow(spec, e.id, rows[e.id]) == Some(k.key) && e.data == k.data
  }

  lemma KeysRise(ks: seq<Keyed>, i: nat, j: nat)
    requires Short(ks) && Sorted(AsEntries(ks)) && i < j < |ks|
    ensures LexLess(ks[i].key, ks[j].key)
  {
    assert ks[i] in ks && ks[j] in ks;
    RankOrder(ks[i].key, ks[j].key, BRANCH_KEY_MAX);
    assert AsEntries(ks)[i].id < AsEntries(ks)[j].id;
  }

  function Always(): BTree.Entry -> bool {
    (e: BTree.Entry) => true
  }

  method KeyAll(all: seq<BTree.Entry>, spec: IndexSpec, passes: seq<Byte> -> bool, ghost rows: Rows) returns (keyed: seq<Keyed>)
    requires Keyable(all, spec, rows)
    ensures keyed == KeyedRows(all, spec, rows, passes)
  {
    keyed := [];
    for i := 0 to |all|
      invariant keyed == KeyedRows(all[..i], spec, rows, passes)
    {
      assert all[..i + 1][..i] == all[..i] && ListedRow(all[i], rows);
      var one := KeyOne(all[i], spec, passes, rows);
      keyed := keyed + one;
    }
    assert all[..|all|] == all;
  }

  method KeyOne(e: BTree.Entry, spec: IndexSpec, passes: seq<Byte> -> bool, ghost rows: Rows) returns (one: seq<Keyed>)
    requires ListedRow(e, rows) && Fitting(spec, rows[e.id])
    ensures one == KeyedRow(spec, rows, passes, e)
  {
    if !passes(e.data) { return []; }
    var key := KeyFromBytes(spec, e.id, e.data, rows[e.id]);
    return if key.Some? then [Keyed(key.value, e.data)] else [];
  }

  /** A window over a list, `acc` collected before row `i`: it comes to the batch `target`. */
  ghost predicate Heads(target: Batch, list: seq<BTree.Entry>, i: nat, dir: Dir, after: Option<nat>, limit: nat,
                        keep: BTree.Entry -> bool, acc: seq<BTree.Entry>)
  {
    i <= |list| && |acc| <= limit && Collect(Candidates(list[i..], dir, after), limit, keep, acc) == target
  }

  lemma HeadsOn(target: Batch, list: seq<BTree.Entry>, i: nat, dir: Dir, after: Option<nat>, limit: nat,
                keep: BTree.Entry -> bool, acc: seq<BTree.Entry>)
    requires i < |list| && limit > 0 && Heads(target, list, i, dir, after, limit, keep, acc)
    ensures if !Beyond(dir, after, list[i].id) then Heads(target, list, i + 1, dir, after, limit, keep, acc)
            else if |acc| >= limit then target == Batch(acc, Some(acc[|acc| - 1].id))
            else Heads(target, list, i + 1, dir, after, limit, keep, if keep(list[i]) then acc + [list[i]] else acc)
  {
    assert list[i..][1..] == list[i + 1..];
    var rest := Candidates(list[i + 1..], dir, after);
    assert ([list[i]] + rest)[1..] == rest && [] + rest == rest;
  }

  lemma HeadsStart(list: seq<BTree.Entry>, dir: Dir, after: Option<nat>, limit: nat, keep: BTree.Entry -> bool)
    requires limit > 0
    ensures Heads(ScanBatch(list, dir, after, limit, keep), list, 0, dir, after, limit, keep, [])
  {
    assert list[0..] == list;
  }

  lemma HeadsEnd(target: Batch, list: seq<BTree.Entry>, dir: Dir, after: Option<nat>, limit: nat, keep: BTree.Entry -> bool, acc: seq<BTree.Entry>)
    requires Heads(target, list, |list|, dir, after, limit, keep, acc)
    ensures target == Batch(acc, None)
  {
    assert list[|list|..] == [];
  }

  /**
   * The window over the sorted rows: rows past the bound up to the limit, the last key only
   * when a further row exists.
   */
  method Window(keyed: seq<Keyed>, after: Option<seq<Byte>>, dir: Dir, limit: nat) returns (p: KeyPage)
    requires Short(keyed) && BoundOk(after) && limit > 0
    ensures Shows(p, ScanBatch(Listed(AsEntries(keyed), dir), dir, RankOf(after), limit, Always()))
  {
    ghost var list := Listed(AsEntries(keyed), dir);
    ghost var target, acc := ScanBatch(list, dir, RankOf(after), limit, Always()), [];
    var rows: seq<seq<Byte>>, last: Option<seq<Byte>> := [], None;
    HeadsStart(list, dir, RankOf(after), limit, Always());
    for i := 0 to |keyed|
      invariant rows == Datas(acc) && BoundOk(last)
      invariant acc != [] ==> RankOf(last) == Some(acc[|acc| - 1].id)
      invariant Heads(target, list, i, dir, RankOf(after), limit, Always(), acc)
    {
      var k := keyed[if dir.Asc? then i else |keyed| - 1 - i];
      WindowOn(target, keyed, i, dir, after, limit, acc);
      if PastBound(k.key, dir, after) {
        if |rows| < limit {
          rows := rows + [k.data];
          last := Some(k.key);
          acc := acc + [list[i]];
        } else {
          return KeyPage(rows, last);
        }
      }
    }
    HeadsEnd(target, list, dir, RankOf(after), limit, Always(), acc);
    return KeyPage(rows, None);
  }

  lemma WindowOn(target: Batch, keyed: seq<Keyed>, i: nat, dir: Dir, after: Option<seq<Byte>>, limit: nat, acc: seq<BTree.Entry>)
    requires Short(keyed) && BoundOk(after) && limit > 0 && i < |keyed|
    requires Heads(target, Listed(AsEntries(keyed), dir), i, dir, RankOf(after), limit, Always(), acc)
    ensures var list := Listed(AsEntries(keyed), dir);
            var k := keyed[if dir.Asc? then i else |keyed| - 1 - i];
            && |k.key| <= BRANCH_KEY_MAX && list[i].data == k.data && RankOf(Some(k.key)) == Some(list[i].id)
            && if !PastBound(k.key, dir, after) then Heads(target, list, i + 1, dir, RankOf(after), limit, Always(), acc)
               else if |acc| >= limit then target == Batch(acc, Some(acc[|acc| - 1].id))
               else Heads(target, list, i + 1, dir, RankOf(after), limit, Always(), acc + [list[i]])
  {
    var k := keyed[if dir.Asc? then i else |keyed| - 1 - i];
    assert k in keyed;
    HeadsOn(target, Listed(AsEntries(keyed), dir), i, dir, RankOf(after), limit, Always(), acc);
    BoundByRank(k.key, dir, after);
  }

  lemma BoundByRank(key: seq<Byte>, dir: Dir, after: Option<seq<Byte>>)
    requires |key| <= BRANCH_KEY_MAX && BoundOk(after)
    ensures PastBound(key, dir, after) == Beyond(dir, RankOf(after), Rank(key))
  {
    if after.Some? {
      RankOrder(after.value, key, BRANCH_KEY_MAX);
      RankOrder(key, after.value, BRANCH_KEY_MAX);
    }
  }

  /** A batch in index order inside a transaction: all rows of its view, filtered, keyed, sorted, windowed. */
  method TxIndexBatch(table: BTreeReader, spec: IndexSpec, after: Option<seq<Byte>>, dir: Dir, limit: nat,
                      passes: seq<Byte> -> bool,
                      ghost t: Tree, ghost h: nat, ghost over: map<nat, OverPage>, ghost rows: Rows)
      returns (r: ScanOutcome<KeyPage>)
    requires table.guard.Valid() && Stored(table.guard.View(), table.root, t, h, table.guard.Next())
    requires over == Over(table.guard.View()) && BoundOk(after) && Keyable(Whole(TreeRows(t), over), spec, rows)
    ensures var ks := ByKey(Whole(TreeRows(t), over), spec, rows, passes);
            r.Done? && Short(ks) && Shows(r.result, ScanBatch(Listed(AsEntries(ks), dir), dir, RankOf(after), limit, Always()))
  {
    ByKeySorted(Whole(TreeRows(t), over), spec, rows, passes);
    if limit == 0 {
      return Done(KeyPage([], None));
    }
    var all := table.ScanAll(t, h, over);
    var keyed := KeyAll(all.result, spec, passes, rows);
    var p := Window(InKeyOrder(keyed), after, dir, limit);
    return Done(p);
  }

  lemma ListedWhole(rows: seq<BTree.Entry>, over: map<nat, OverPage>, dir: Dir)
    ensures Listed(Whole(rows, over), dir) == Whole(Listed(rows, dir), over)
  {
  }

  /** A batch by rowid inside a transaction: a whole scan of its view, windowed; the same batch as the cursor over pages. */
  method TxScanBatch(table: BTreeReader, after: Option<nat>, dir: Dir, limit: nat, keep: BTree.Entry -> bool,
                     ghost t: Tree, ghost h: nat, ghost over: map<nat, OverPage>)
      returns (r: ScanOutcome<Batch>)
    requires table.guard.Valid() && Stored(table.guard.View(), table.root, t, h, table.guard.Next())
    requires over == Over(table.guard.View())
    ensures r == Done(ScanBatch(Whole(Listed(TreeRows(t), dir), over), dir, after, limit, keep))
  {
    if limit == 0 {
      return Done(Batch([], None));
    }
    ListedWhole(TreeRows(t), over, dir);
    var scan := table.ScanAll(t, h, over);
    var b := WindowRows(scan.result, after, dir, limit, keep);
    return Done(b);
  }

  method WindowRows(all: seq<BTree.Entry>, after: Option<nat>, dir: Dir, limit: nat, keep: BTree.Entry -> bool) returns (b: Batch)
    requires limit > 0
    ensures b == ScanBatch(Listed(all, dir), dir, after, limit, keep)
  {
    ghost var list := Listed(all, dir);
    ghost var target := ScanBatch(list, dir, after, limit, keep);
    var results: seq<BTree.Entry> := [];
    HeadsStart(list, dir, after, limit, keep);
    for i := 0 to |all|
      invariant Heads(target, list, i, dir, after, limit, keep, results)
    {
      var e := all[if dir.Asc? then i else |all| - 1 - i];
      assert list[i] == e;
      HeadsOn(target, list, i, dir, after, limit, keep, results);
      if Beyond(dir, after, e.id) {
        if |results| >= limit {
          return Batch(results, Some(results[|results| - 1].id));
        }
        if keep(e) { results := results + [e]; }
      }
    }
    HeadsEnd(target, list, dir, after, limit, keep, results);
    return Batch(results, None);
  }

  // ----- the two cursors list the same rows -----

  /** Lists in scan order with the same ids name them in the same order. */
  lemma {:induction false} ScanOrderSame(a: seq<BTree.Entry>, b: seq<BTree.Entry>, dir: Dir)
    requires InScanOrder(a, dir) && InScanOrder(b, dir) && forall id :: HasId(a, id) <==> HasId(b, id)
    ensures Ids(a) == Ids(b)
    decreases |a|
  {
    assert b != [] ==> HasId(b, b[0].id);
    if a != [] {
      TailsSame(a, b, dir);
      ScanOrderSame(a[1..], b[1..], dir);
      IdsCons(a);
      IdsCons(b);
    }
  }

  lemma IdsCons(a: seq<BTree.Entry>)
    requires a != []
    ensures Ids(a) == [a[0].id] + Ids(a[1..])
  {
  }

  lemma TailsSame(a: seq<BTree.Entry>, b: seq<BTree.Entry>, dir: Dir)
    requires InScanOrder(a, dir) && InScanOrder(b, dir) && (forall id :: HasId(a, id) <==> HasId(b, id)) && a != []
    ensures b != [] && a[0].id == b[0].id && InScanOrder(a[1..], dir) && InScanOrder(b[1..], dir)
    ensures forall id :: HasId(a[1..], id) <==> HasId(b[1..], id)
  {
    assert HasId(a, a[0].id);
    assert HasId(b, b[0].id);
    FirstsSame(a, b, dir);
    TailOrder(a, 1, dir);
    TailOrder(b, 1, dir);
    forall id ensures HasId(a[1..], id) <==> HasId(b[1..], id) {
      RestIds(a, dir, id);
      RestIds(b, dir, id);
    }
  }

  lemma FirstsSame(a: seq<BTree.Entry>, b: seq<BTree.Entry>, dir: Dir)
    requires InScanOrder(a, dir) && InScanOrder(b, dir) && a != [] && b != [] && HasId(b, a[0].id) && HasId(a, b[0].id)
    ensures a[0].id == b[0].id
  {
  }

  lemma RestIds(a: seq<BTree.Entry>, dir: Dir, id: nat)
    requires InScanOrder(a, dir) && a != []
    ensures HasId(a[1..], id) <==> HasId(a, id) && id != a[0].id
  {
    if HasId(a, id) && id != a[0].id {
      var i :| 0 <= i < |a| && a[i].id == id;
      assert a[1..][i - 1] == a[i];
    }
    if HasId(a[1..], id) {
      var i :| 0 <= i < |a[1..]| && a[1..][i].id == id;
      assert a[i + 1].id == id;
    }
  }

  /** An entry that leads to a kept row. */
  function Leads(fetch: BTree.Entry -> seq<BTree.Entry>): BTree.Entry -> bool {
    (e: BTree.Entry) => fetch(e) != []
  }

  predicate LeadsToOne(fetch: BTree.Entry -> seq<BTree.Entry>, e: BTree.Entry, data: seq<Byte>) {
    |fetch(e)| == 1 && fetch(e)[0].data == data
  }

  /** Following entries that lead to one row each. */
  lemma {:induction false} GatherOnes(list: seq<BTree.Entry>, fetch: BTree.Entry -> seq<BTree.Entry>, ds: seq<seq<Byte>>)
    requires |Passing(list, Leads(fetch))| == |ds|
    requires forall i :: 0 <= i < |ds| ==> LeadsToOne(fetch, Passing(list, Leads(fetch))[i], ds[i])
    ensures Datas(Gather(list, fetch)) == ds
  {
    if list != [] {
      var rest := Passing(list[1..], Leads(fetch));
      DatasConcat(fetch(list[0]), Gather(list[1..], fetch));
      if fetch(list[0]) == [] {
        EmptyFront([], rest);
        EmptyFront([], Gather(list[1..], fetch));
        GatherOnes(list[1..], fetch, ds);
      } else {
        OnesOn(list[0], rest, fetch, ds);
        GatherOnes(list[1..], fetch, ds[1..]);
      }
    }
  }

  lemma OnesOn(e: BTree.Entry, rest: seq<BTree.Entry>, fetch: BTree.Entry -> seq<BTree.Entry>, ds: seq<seq<Byte>>)
    requires |ds| == |rest| + 1 && forall i :: 0 <= i < |ds| ==> LeadsToOne(fetch, ([e] + rest)[i], ds[i])
    ensures Datas(fetch(e)) == [ds[0]] && ds == [ds[0]] + ds[1..]
    ensures forall i :: 0 <= i < |rest| ==> LeadsToOne(fetch, rest[i], ds[1..][i])
  {
    assert LeadsToOne(fetch, ([e] + rest)[0], ds[0]);
    forall i | 0 <= i < |rest| ensures LeadsToOne(fetch, rest[i], ds[1..][i]) {
      assert LeadsToOne(fetch, ([e] + rest)[i + 1], ds[i + 1]);
    }
  }

  /** A table, an index tree with exactly the keys of its rows, and rowids in range. */
  ghost predicate Kept(spec: IndexSpec, rows: Rows, entries: seq<BTree.Entry>, list: seq<BTree.Entry>) {
    && Keyable(list, spec, rows) && RowidsOk(entries) && Sorted(entries) && Sorted(list)
    && (forall id :: id in rows ==> id < MAX_ID)
    && forall key :: key in Keys(entries) <==> exists id :: id in rows && KeyOfRow(spec, id, rows[id]) == Some(key)
  }

  /** The key of a row leads to the row. */
  lemma KeyLeads(spec: IndexSpec, rows: Rows, list: seq<BTree.Entry>, passes: seq<Byte> -> bool, id: nat)
    requires Keyable(list, spec, rows) && Sorted(list) && id in rows && id < MAX_ID && KeyOfRow(spec, id, rows[id]).Some?
    ensures var key := KeyOfRow(spec, id, rows[id]).value;
            && |key| >= 8 && RowidOf(key) == id
            && exists i :: 0 <= i < |list| && list[i].id == id && FetchRow(list, passes, key) == if passes(list[i].data) then [list[i]] else []
  {
    FittingEncodes(spec, rows[id]);
    KeyRecovers(spec.types, IndexedValues(spec, rows[id]), IndexedValues(spec, rows[id]), id, id);
    var i :| 0 <= i < |list| && list[i].id == id;
    BoundUnique(list, id, i);
  }

  /** An index entry leads to a kept row exactly when it is the entry of a keyed row. */
  lemma LeadsExactly(spec: IndexSpec, rows: Rows, entries: seq<BTree.Entry>, list: seq<BTree.Entry>, passes: seq<Byte> -> bool, e: BTree.Entry)
    requires Kept(spec, rows, entries, list) && e in entries
    ensures var r := Fetch(list, passes)(e);
            if r == [] then forall x :: x in list && Indexes(spec, rows, passes, x) ==> KeyOfRow(spec, x.id, rows[x.id]) != Some(KeyOf(e))
            else |r| == 1 && r[0] in list && Indexes(spec, rows, passes, r[0]) && KeyOfRow(spec, r[0].id, rows[r[0].id]) == Some(KeyOf(e))
  {
    var k :| 0 <= k < |entries| && entries[k] == e;
    assert Keys(entries)[k] == KeyOf(e) && KeyOf(e) in Keys(entries);
    var id :| id in rows && KeyOfRow(spec, id, rows[id]) == Some(KeyOf(e));
    KeyLeads(spec, rows, list, passes, id);
    var i :| 0 <= i < |list| && list[i].id == id && FetchRow(list, passes, KeyOf(e)) == if passes(list[i].data) then [list[i]] else [];
    forall x | x in list && Indexes(spec, rows, passes, x) && KeyOfRow(spec, x.id, rows[x.id]) == Some(KeyOf(e))
      ensures x == list[i]
    {
      KeysApart(spec, id, rows[id], x.id, rows[x.id]);
      var j :| 0 <= j < |list| && list[j] == x;
    }
  }

  lemma InOrder(rows: seq<BTree.Entry>, dir: Dir, after: Option<nat>)
    requires Sorted(rows)
    ensures InScanOrder(Listed(rows, dir), dir) && InScanOrder(Candidates(Listed(rows, dir), dir, after), dir)
    ensures forall e :: e in Candidates(Listed(rows, dir), dir, after) <==> e in rows && Beyond(dir, after, e.id)
  {
    var list := Listed(rows, dir);
    ListedOrder(rows, dir);
    var k := CandidatesTail(list, dir, after);
    TailOrder(list, k, dir);
    CandidatesAre(list, dir, after);
    forall e ensures e in list <==> e in rows { ListedAmong(rows, dir, e); }
  }

  lemma ListedOrder(rows: seq<BTree.Entry>, dir: Dir)
    requires Sorted(rows)
    ensures InScanOrder(Listed(rows, dir), dir)
  {
  }

  lemma TailOrder(list: seq<BTree.Entry>, k: nat, dir: Dir)
    requires InScanOrder(list, dir) && k <= |list|
    ensures InScanOrder(list[k..], dir)
  {
  }

  lemma ListedAmong(rows: seq<BTree.Entry>, dir: Dir, e: BTree.Entry)
    ensures e in Listed(rows, dir) <==> e in rows
  {
    if e in rows {
      var i :| 0 <= i < |rows| && rows[i] == e;
      assert Listed(rows, dir)[if dir.Asc? then i else |rows| - 1 - i] == e;
    }
  }

  /** Entries that lead to a kept row, and keyed rows, have the same ranks. */
  lemma SameRanks(spec: IndexSpec, rows: Rows, entries: seq<BTree.Entry>, list: seq<BTree.Entry>, passes: seq<Byte> -> bool, id: nat)
    requires Kept(spec, rows, entries, list)
    ensures Short(ByKey(list, spec, rows, passes))
    ensures (exists e :: e in entries && e.id == id && Fetch(list, passes)(e) != []) <==>
            HasId(AsEntries(ByKey(list, spec, rows, passes)), id)
  {
    var ks := ByKey(list, spec, rows, passes);
    ByKeySorted(list, spec, rows, passes);
    if e :| e in entries && e.id == id && Fetch(list, passes)(e) != [] {
      KeyedOf(spec, rows, entries, list, passes, e);
    }
    if HasId(AsEntries(ks), id) {
      var i :| 0 <= i < |ks| && AsEntries(ks)[i].id == id;
      var e := EntryOf(spec, rows, entries, list, passes, ks[i]);
    }
  }

  /** The keyed row of an index entry. */
  lemma KeyedOf(spec: IndexSpec, rows: Rows, entries: seq<BTree.Entry>, list: seq<BTree.Entry>, passes: seq<Byte> -> bool, e: BTree.Entry)
    requires Kept(spec, rows, entries, list) && e in entries && Fetch(list, passes)(e) != []
    ensures Short(ByKey(list, spec, rows, passes)) && HasId(AsEntries(ByKey(list, spec, rows, passes)), e.id)
  {
    var ks := ByKey(list, spec, rows, passes);
    ByKeySorted(list, spec, rows, passes);
    LeadsExactly(spec, rows, entries, list, passes, e);
    var x := Fetch(list, passes)(e)[0];
    KeyedIn(list, spec, rows, passes, x);
    EntryIn(ks, Keyed(KeyOf(e), x.data));
    assert CodedEntry(e);
  }

  lemma EntryIn(ks: seq<Keyed>, k: Keyed)
    requires Short(ks) && k in ks
    ensures |k.key| <= BRANCH_KEY_MAX && HasId(AsEntries(ks), Rank(k.key))
  {
    var i :| 0 <= i < |ks| && ks[i] == k;
    assert AsEntries(ks)[i].id == Rank(k.key);
  }

  /** The index entry of a keyed row. */
  lemma EntryOf(spec: IndexSpec, rows: Rows, entries: seq<BTree.Entry>, list: seq<BTree.Entry>, passes: seq<Byte> -> bool, k: Keyed)
      returns (e: BTree.Entry)
    requires Kept(spec, rows, entries, list) && k in ByKey(list, spec, rows, passes)
    ensures e in entries && KeyOf(e) == k.key && |k.key| <= BRANCH_KEY_MAX && e.id == Rank(k.key)
    ensures |Fetch(list, passes)(e)| == 1 && Fetch(list, passes)(e)[0].data == k.data
  {
    var x := KeyedFrom(list, spec, rows, passes, k);
    assert k.key in Keys(entries);
    var i :| 0 <= i < |entries| && Keys(entries)[i] == k.key;
    e := entries[i];
    assert e in entries;
    LeadsExactly(spec, rows, entries, list, passes, e);
    var r := Fetch(list, passes)(e);
    KeysApart(spec, x.id, rows[x.id], r[0].id, rows[r[0].id]);
    SameIdSame(list, x, r[0]);
  }

  lemma SameIdSame(list: seq<BTree.Entry>, x: BTree.Entry, y: BTree.Entry)
    requires Sorted(list) && x in list && y in list && x.id == y.id
    ensures x == y
  {
    var i :| 0 <= i < |list| && list[i] == x;
    var j :| 0 <= j < |list| && list[j] == y;
  }

  /**
   * From any bound and in either direction, what is left for the cursor over the pages and for
   * the transaction's cursor over the same rows is the same rows in the same order.
   */
  lemma CursorsAgree(spec: IndexSpec, rows: Rows, entries: seq<BTree.Entry>, list: seq<BTree.Entry>,
                     passes: seq<Byte> -> bool, dir: Dir, after: Option<nat>)
    requires Kept(spec, rows, entries, list)
    ensures Short(ByKey(list, spec, rows, passes))
    ensures Datas(Gather(Candidates(Listed(entries, dir), dir, after), Fetch(list, passes))) ==
            Datas(Candidates(Listed(AsEntries(ByKey(list, spec, rows, passes)), dir), dir, after))
  {
    var fetch, ks := Fetch(list, passes), ByKey(list, spec, rows, passes);
    ByKeySorted(list, spec, rows, passes);
    var c, b := Candidates(Listed(entries, dir), dir, after), Candidates(Listed(AsEntries(ks), dir), dir, after);
    var p := Passing(c, Leads(fetch));
    InOrder(entries, dir, after);
    InOrder(AsEntries(ks), dir, after);
    PassingAre(c, Leads(fetch));
    PassingInOrder(c, dir, Leads(fetch));
    forall id ensures HasId(p, id) <==> HasId(b, id) {
      SameRanks(spec, rows, entries, list, passes, id);
      IdAmong(p, id);
      IdAmong(b, id);
      IdAmong(AsEntries(ks), id);
    }
    ScanOrderSame(p, b, dir);
    forall i | 0 <= i < |b| ensures LeadsToOne(fetch, p[i], Datas(b)[i]) {
      assert Ids(p)[i] == Ids(b)[i] && b[i] in b && p[i] in p;
      KeyedEntry(ks, b[i]);
      var k :| k in ks && |k.key| <= BRANCH_KEY_MAX && b[i] == BTree.Entry(Rank(k.key), k.data);
      var e := EntryOf(spec, rows, entries, list, passes, k);
      SameIdSame(entries, e, p[i]);
    }
    assert |Ids(p)| == |Ids(b)|;
    GatherOnes(c, fetch, Datas(b));
  }

  lemma KeyedEntry(ks: seq<Keyed>, e: BTree.Entry)
    requires Short(ks) && e in AsEntries(ks)
    ensures exists k :: k in ks && |k.key| <= BRANCH_KEY_MAX && e == BTree.Entry(Rank(k.key), k.data)
  {
    var i :| 0 <= i < |ks| && AsEntries(ks)[i] == e;
    assert ks[i] in ks;
  }

  lemma IdAmong(list: seq<BTree.Entry>, id: nat)
    ensures HasId(list, id) <==> exists e :: e in list && e.id == id
  {
    if e :| e in list && e.id == id { var i :| 0 <= i < |list| && list[i] == e; }
    if HasId(list, id) {
      var i :| 0 <= i < |list| && list[i].id == id;
      assert list[i] in list;
    }
  }

  /** So threading either cursor with any limit gives the same rows in the same order. */
  lemma ThreadsAgree(spec: IndexSpec, rows: Rows, entries: seq<BTree.Entry>, list: seq<BTree.Entry>,
                     passes: seq<Byte> -> bool, dir: Dir, after: Option<nat>, limit: nat, limit': nat)
    requires Kept(spec, rows, entries, list) && limit >= 1 && limit' >= 1
    ensures Short(ByKey(list, spec, rows, passes))
    ensures var keyed := Listed(AsEntries(ByKey(list, spec, rows, passes)), dir);
            InScanOrder(Listed(entries, dir), dir) && InScanOrder(keyed, dir)
            && Datas(IndexThread(Listed(entries, dir), dir, after, limit, Fetch(list, passes))) ==
               Datas(Thread(keyed, dir, after, limit', Always()))
  {
    var ks := ByKey(list, spec, rows, passes);
    ByKeySorted(list, spec, rows, passes);
    InOrder(entries, dir, after);
    InOrder(AsEntries(ks), dir, after);
    var keyed := Listed(AsEntries(ks), dir);
    IndexBatchesTile(Listed(entries, dir), dir, after, limit, Fetch(list, passes));
    BatchesTile(keyed, dir, after, limit', Always());
    AllPass(Candidates(keyed, dir, after));
    CursorsAgree(spec, rows, entries, list, passes, dir, after);
  }

  lemma {:induction false} AllPass(list: seq<BTree.Entry>)
    ensures Passing(list, Always()) == list
  {
    if list != [] {
      AllPass(list[1..]);
      assert list == [list[0]] + list[1..];
    }
  }
}
