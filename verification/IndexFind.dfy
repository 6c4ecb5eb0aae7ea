/** Finding and counting by index against finding and counting by a filtered scan. */
module IndexFind {
  import opened Seqs
  import opened Bytes
  import opened Overflow
  import opened Values
  import opened ValueCodec
  import opened BTree
  import opened BTreeLeaves
  import opened BTreeRuns
  import opened BTreePages
  import opened BTreeStored
  import BTreeWriter
  import opened BTreeReader
  import opened Store
  import opened IndexKey
  import opened IndexTree
  import opened IndexReader
  import opened RowLayout
  import opened RowCodec
  import opened Filters
  import opened IndexedTable

  /** The table's rows as a scan lists them: by rowid, as bytes. */
  ghost predicate Lists(list: seq<BTree.Entry>, rows: Rows) {
    && Sorted(list)
    && (forall i :: 0 <= i < |list| ==> ListedRow(list[i], rows))
    && forall id :: id in rows ==> exists i :: 0 <= i < |list| && list[i].id == id
  }

  ghost predicate ListedRow(e: BTree.Entry, rows: Rows) {
    e.id in rows && RowFits(e.id, rows[e.id]) && Ascend(rows[e.id]) && e.data == Encoded(e.id, rows[e.id])
  }

  /** The index's keys as its tree lists them. */
  ghost predicate ListsKeys(ks: seq<seq<Byte>>, tree: set<seq<Byte>>) {
    KeysSorted(ks) && forall key :: key in ks <==> key in tree
  }

  /** The row's column passes the comparison. */
  ghost predicate Hit(e: BTree.Entry, rows: Rows, col: nat, op: FilterOp, v: Value) {
    e.id in rows && !CrossNumeric(ValueOf(rows[e.id], col), v) && EvalOp(ValueOf(rows[e.id], col), op, v)
  }

  /** The listed rows whose column passes. */
  ghost function Having(list: seq<BTree.Entry>, rows: Rows, col: nat, op: FilterOp, v: Value): seq<BTree.Entry> {
    if list == [] then []
    else (if Hit(list[0], rows, col, op, v) then [list[0]] else []) + Having(list[1..], rows, col, op, v)
  }

  // ----- paging -----

  /** Skip, then take. */
  function PageOf<T>(all: seq<T>, offset: nat, limit: nat): seq<T> {
    if offset >= |all| then [] else if |all| - offset <= limit then all[offset..] else all[offset..offset + limit]
  }

  const NO_LIMIT := 0xFFFF_FFFF

  datatype FindOptions = FindOptions(limit: Option<nat>, offset: Option<nat>, includeTotal: bool)

  function Offset0(o: FindOptions): nat { if o.offset.Some? then o.offset.value else 0 }
  function Limit0(o: FindOptions): nat { if o.limit.Some? then o.limit.value else NO_LIMIT }

  lemma PageOfPrefix<T>(all: seq<T>, n: nat, offset: nat, limit: nat)
    requires n <= |all| && (n == |all| || n >= offset + limit)
    ensures PageOf(all[..n], offset, limit) == PageOf(all, offset, limit)
  {
  }

  // ----- sorted key lists -----

  /** Sorted lists of the same keys are equal. */
  lemma {:induction false} SortedSame(a: seq<seq<Byte>>, b: seq<seq<Byte>>)
    requires KeysSorted(a) && KeysSorted(b) && forall k :: k in a <==> k in b
    ensures a == b
    decreases |a|
  {
    assert (a != [] ==> a[0] in b) && (b != [] ==> b[0] in a);
    if a != [] {
      FirstsAgree(a, b);
      TailKeys(a);
      TailKeys(b);
      SortedSame(a[1..], b[1..]);
    }
  }

  lemma FirstsAgree(a: seq<seq<Byte>>, b: seq<seq<Byte>>)
    requires KeysSorted(a) && KeysSorted(b) && a != [] && b != [] && a[0] in b && b[0] in a
    ensures a[0] == b[0]
  {
    LexAsymmetric(a[0], b[0]);
  }

  lemma TailKeys(a: seq<seq<Byte>>)
    requires KeysSorted(a) && a != []
    ensures KeysSorted(a[1..]) && forall k :: k in a[1..] <==> k in a && k != a[0]
  {
    LexIrreflexive(a[0]);
    assert a == [a[0]] + a[1..];
  }

  lemma {:induction false} MatchingKeys(ks: seq<seq<Byte>>, prefix: seq<Byte>)
    requires KeysSorted(ks)
    ensures KeysSorted(Matching(ks, prefix))
    ensures forall k :: k in Matching(ks, prefix) <==> k in ks && prefix <= k
  {
    if ks != [] {
      TailKeys(ks);
      MatchingKeys(ks[1..], prefix);
      assert ks == [ks[0]] + ks[1..];
      assert forall k :: k in ks[1..] ==> LexLess(ks[0], k);
    }
  }

  // ----- the keys with a value's prefix are the keys of the rows with the value -----

  /** An index on one column of integers or text. */
  predicate SingleColumn(spec: IndexSpec) {
    |spec.cols| == 1 && |spec.types| == 1 && (spec.types[0].IntegerType? || spec.types[0].TextType?)
  }

  /** A value the index can look up. */
  predicate Sought(spec: IndexSpec, v: Value)
    requires SingleColumn(spec)
  {
    Indexable(spec.types[0], v)
  }

  function PrefixOf(t: Type, v: Value): seq<Byte>
    requires Indexable(t, v)
  {
    PartOrder(t, v, v);
    ValuePrefix(t, v).value
  }

  lemma SingleKey(spec: IndexSpec, id: nat, row: seq<Col>)
    requires SingleColumn(spec) && Fitting(spec, row)
    ensures var v := ValueOf(row, spec.cols[0]);
            if v.Null? then KeyOfRow(spec, id, row) == None
            else Indexable(spec.types[0], v) && KeyOfRow(spec, id, row) == Some(PrefixOf(spec.types[0], v) + Be(id, 8))
  {
    var vs, v := IndexedValues(spec, row), ValueOf(row, spec.cols[0]);
    FittingEncodes(spec, row);
    assert vs == [v] && vs[1..] == [];
    if !v.Null? {
      PartOrder(spec.types[0], v, v);
      assert PrefixOf(spec.types[0], v) + [] == PrefixOf(spec.types[0], v);
    }
  }

  lemma SinglePrefix(t: Type, v: Value, w: Value, tail: seq<Byte>)
    requires Indexable(t, v) && Indexable(t, w)
    ensures PrefixOf(t, v) <= PrefixOf(t, w) + tail <==> v == w
  {
    PartOrder(t, v, w);
    HeadsDecide(PrefixOf(t, v), PrefixOf(t, w), [], tail);
    assert PrefixOf(t, v) + [] == PrefixOf(t, v);
  }

  /** A key has the value's prefix exactly when it is the key of a row with the value. */
  lemma PrefixKeys(spec: IndexSpec, rows: Rows, tree: set<seq<Byte>>, v: Value, key: seq<Byte>)
    requires SingleColumn(spec) && Sought(spec, v) && AllFit([spec], rows)
    requires (forall id :: id in rows ==> Fitting(spec, rows[id])) && Exact(spec, rows, tree)
    ensures key in tree && PrefixOf(spec.types[0], v) <= key <==>
            exists id :: id in rows && ValueOf(rows[id], spec.cols[0]) == v && key == PrefixOf(spec.types[0], v) + Be(id, 8)
  {
    var t, c := spec.types[0], spec.cols[0];
    if key in tree && PrefixOf(t, v) <= key {
      var id :| id in rows && KeyOfRow(spec, id, rows[id]) == Some(key);
      SingleKey(spec, id, rows[id]);
      SinglePrefix(t, v, ValueOf(rows[id], c), Be(id, 8));
    }
    if id :| id in rows && ValueOf(rows[id], c) == v && key == PrefixOf(t, v) + Be(id, 8) {
      SingleKey(spec, id, rows[id]);
      SinglePrefix(t, v, v, Be(id, 8));
    }
  }

  /** The keys of listed rows with one value. */
  function RowKeys(prefix: seq<Byte>, list: seq<BTree.Entry>): (ks: seq<seq<Byte>>)
    ensures |ks| == |list| && forall i :: 0 <= i < |list| ==> ks[i] == prefix + Be(list[i].id, 8)
  {
    seq(|list|, i requires 0 <= i < |list| => prefix + Be(list[i].id, 8))
  }

  lemma RowKeysSorted(prefix: seq<Byte>, list: seq<BTree.Entry>)
    requires Sorted(list) && forall e :: e in list ==> e.id < TWO_64
    ensures KeysSorted(RowKeys(prefix, list))
  {
    PowValues();
    forall i, j | 0 <= i < j < |list| ensures LexLess(RowKeys(prefix, list)[i], RowKeys(prefix, list)[j]) {
      assert list[i] in list && list[j] in list;
      LexConcat(prefix, prefix, Be(list[i].id, 8), Be(list[j].id, 8));
      BeOrder(list[i].id, list[j].id, 8);
    }
  }

  lemma {:induction false} HavingIs(list: seq<BTree.Entry>, rows: Rows, col: nat, op: FilterOp, v: Value)
    ensures forall e :: e in Having(list, rows, col, op, v) <==> e in list && Hit(e, rows, col, op, v)
    ensures Sorted(list) ==> Sorted(Having(list, rows, col, op, v))
  {
    if list != [] {
      HavingIs(list[1..], rows, col, op, v);
      assert list == [list[0]] + list[1..];
      assert Sorted(list) ==> Sorted(list[1..]) && forall e :: e in list[1..] ==> list[0].id < e.id;
    }
  }

  /** Equality with an integer or text is equality of values. */
  lemma EqIsEqual(t: Type, actual: Value, v: Value)
    requires (t.IntegerType? || t.TextType?) && Indexable(t, v) && (actual.Null? || Indexable(t, actual))
    ensures !CrossNumeric(actual, v) && (EvalOp(actual, OpEq, v) <==> actual == v)
  {
    if actual.Text? && v.Text? { OrderEqual(actual.chars, v.chars); }
  }

  /** A table, one of its indexes, and what scans of both list. */
  ghost predicate Indexed(spec: IndexSpec, rows: Rows, tree: set<seq<Byte>>, list: seq<BTree.Entry>, ks: seq<seq<Byte>>) {
    && SingleColumn(spec) && AllFit([spec], rows)
    && (forall id :: id in rows ==> id < TWO_64 && Fitting(spec, rows[id])) && Exact(spec, rows, tree)
    && Lists(list, rows) && ListsKeys(ks, tree)
  }

  lemma HitIsEqual(spec: IndexSpec, rows: Rows, list: seq<BTree.Entry>, v: Value)
    requires SingleColumn(spec) && Sought(spec, v) && Lists(list, rows) && forall id :: id in rows ==> Fitting(spec, rows[id])
    ensures forall e :: e in list ==>
      e.id in rows && (Hit(e, rows, spec.cols[0], OpEq, v) <==> ValueOf(rows[e.id], spec.cols[0]) == v)
  {
    forall e | e in list
      ensures e.id in rows && (Hit(e, rows, spec.cols[0], OpEq, v) <==> ValueOf(rows[e.id], spec.cols[0]) == v)
    {
      var i :| 0 <= i < |list| && list[i] == e;
      assert ListedRow(list[i], rows);
      EqIsEqual(spec.types[0], ValueOf(rows[e.id], spec.cols[0]), v);
    }
  }

  /** The index keys with the value's prefix, in order, are the keys of the matching rows in rowid order. */
  lemma MatchingIsHaving(spec: IndexSpec, rows: Rows, tree: set<seq<Byte>>, list: seq<BTree.Entry>, ks: seq<seq<Byte>>, v: Value)
    requires Indexed(spec, rows, tree, list, ks) && Sought(spec, v)
    ensures Matching(ks, PrefixOf(spec.types[0], v)) ==
            RowKeys(PrefixOf(spec.types[0], v), Having(list, rows, spec.cols[0], OpEq, v))
  {
    var p, c := PrefixOf(spec.types[0], v), spec.cols[0];
    HitIsEqual(spec, rows, list, v);
    var found := Having(list, rows, c, OpEq, v);
    HavingIs(list, rows, c, OpEq, v);
    MatchingKeys(ks, p);
    RowKeysSorted(p, found);
    forall key ensures key in Matching(ks, p) <==> key in RowKeys(p, found) {
      PrefixKeys(spec, rows, tree, v, key);
      KeyOfFound(rows, list, found, c, v, p, key);
    }
    SortedSame(Matching(ks, p), RowKeys(p, found));
  }

  lemma KeyOfFound(rows: Rows, list: seq<BTree.Entry>, found: seq<BTree.Entry>, c: nat, v: Value, p: seq<Byte>, key: seq<Byte>)
    requires Lists(list, rows)
    requires forall e :: e in found <==> e in list && e.id in rows && ValueOf(rows[e.id], c) == v
    ensures key in RowKeys(p, found) <==> exists id :: id in rows && ValueOf(rows[id], c) == v && key == p + Be(id, 8)
  {
    if key in RowKeys(p, found) {
      var i :| 0 <= i < |found| && RowKeys(p, found)[i] == key;
      assert found[i] in found;
    }
    if id :| id in rows && ValueOf(rows[id], c) == v && key == p + Be(id, 8) {
      var j :| 0 <= j < |list| && list[j].id == id;
      assert list[j] in list;
      var i :| 0 <= i < |found| && found[i] == list[j];
      assert RowKeys(p, found)[i] == key;
    }
  }

  // ----- from keys to rows -----

  function Ids(list: seq<BTree.Entry>): (s: seq<nat>)
    ensures |s| == |list| && forall i :: 0 <= i < |list| ==> s[i] == list[i].id
  {
    seq(|list|, i requires 0 <= i < |list| => list[i].id)
  }

  function PlaceId(id: nat, ids: seq<nat>): seq<nat> {
    if ids == [] || id <= ids[0] then [id] + ids else [ids[0]] + PlaceId(id, ids[1..])
  }

  /** The rowids are sorted before the rows are fetched. */
  function SortIds(ids: seq<nat>): seq<nat> {
    if ids == [] then [] else PlaceId(ids[0], SortIds(ids[1..]))
  }

  lemma {:induction false} SortedStay(ids: seq<nat>)
    requires Ascending(ids)
    ensures SortIds(ids) == ids
  {
    if ids != [] {
      SortedStay(ids[1..]);
      assert ids == [ids[0]] + ids[1..];
    }
  }

  lemma {:induction false} NamedOne(list: seq<BTree.Entry>, id: nat, ids: seq<nat>)
    requires forall e :: e in list ==> e.id != id
    ensures Named(list, [id] + ids) == Named(list, ids)
  {
    if list != [] {
      assert list[0] in list;
      NamedOne(list[1..], id, ids);
    }
  }

  lemma {:induction false} NoNames(list: seq<BTree.Entry>)
    ensures Named(list, []) == []
  {
    if list != [] { NoNames(list[1..]); }
  }

  /** Fetching the rowids of the first matching rows gives those rows. */
  lemma {:induction false} NamedHaving(list: seq<BTree.Entry>, rows: Rows, col: nat, op: FilterOp, v: Value, n: nat)
    requires Sorted(list) && n <= |Having(list, rows, col, op, v)|
    ensures Named(list, Ids(Having(list, rows, col, op, v)[..n])) == Having(list, rows, col, op, v)[..n]
  {
    if n == 0 {
      NoNames(list);
    } else {
      var rest := list[1..];
      var found := Having(rest, rows, col, op, v);
      CutAround(list, 0);
      assert forall e :: e in rest ==> list[0].id < e.id;
      HavingIs(rest, rows, col, op, v);
      if Hit(list[0], rows, col, op, v) {
        NamedHaving(rest, rows, col, op, v, n - 1);
        FirstsTaken(list[0], found, n);
        NamedFirst(list[0], rest, Ids(found[..n - 1]));
      } else {
        NamedHaving(rest, rows, col, op, v, n);
        EmptyFront([], found);
        NamedSkip(list[0], rest, found[..n]);
      }
    }
  }

  lemma FirstsTaken(e: BTree.Entry, found: seq<BTree.Entry>, n: nat)
    requires 0 < n <= |found| + 1
    ensures ([e] + found)[..n] == [e] + found[..n - 1]
    ensures Ids([e] + found[..n - 1]) == [e.id] + Ids(found[..n - 1])
  {
  }

  lemma NamedFirst(e: BTree.Entry, rest: seq<BTree.Entry>, ids: seq<nat>)
    requires forall x :: x in rest ==> e.id < x.id
    ensures Named([e] + rest, [e.id] + ids) == [e] + Named(rest, ids)
  {
    NamedOne(rest, e.id, ids);
    TailOfConcat([e], rest);
    EmptyFront([], rest);
  }

  lemma NamedSkip(e: BTree.Entry, rest: seq<BTree.Entry>, first: seq<BTree.Entry>)
    requires forall x :: x in rest ==> e.id < x.id
    requires forall x :: x in first ==> x in rest
    ensures Named([e] + rest, Ids(first)) == Named(rest, Ids(first))
  {
    TailOfConcat([e], rest);
    EmptyFront([], rest);
    EmptyFront([], Named(rest, Ids(first)));
    assert forall i :: 0 <= i < |first| ==> first[i] in first;
  }

  // ----- what an answer must be, said of the table alone -----

  datatype FindResult = FindResult(rows: seq<BTree.Entry>, total: Option<nat>)

  /** The ids of the rows with the value in the column. */
  ghost function With(rows: Rows, col: nat, v: Value): set<nat> {
    set id | id in rows && ValueOf(rows[id], col) == v
  }

  /** The ids of the rows whose column meets the comparison. */
  ghost function Meeting(rows: Rows, col: nat, op: FilterOp, v: Value): set<nat> {
    set id | id in rows && Meets(ValueOf(rows[id], col), op, v)
  }

  /** `ids` lists the wanted ids, ascending. */
  ghost predicate Enumerates(ids: seq<nat>, want: set<nat>) {
    (forall i, j :: 0 <= i < j < |ids| ==> ids[i] < ids[j]) && forall id :: id in ids <==> id in want
  }

  /** The wanted rows in rowid order, as stored, without the first `offset`, and at most `limit` of them. */
  ghost predicate PageFrom(page: seq<BTree.Entry>, want: set<nat>, rows: Rows, offset: nat, limit: nat) {
    exists ids: seq<nat> :: Enumerates(ids, want) && Shows(page, ids, rows, offset, limit)
  }

  ghost predicate Shows(page: seq<BTree.Entry>, ids: seq<nat>, rows: Rows, offset: nat, limit: nat) {
    && |page| == (if |ids| <= offset then 0 else if |ids| - offset < limit then |ids| - offset else limit)
    && forall i :: 0 <= i < |page| ==> page[i].id == ids[offset + i] && ListedRow(page[i], rows)
  }

  /** The page asked for, and when asked for the number of all wanted rows. */
  ghost predicate Answers(r: ScanOutcome<FindResult>, want: set<nat>, rows: Rows, o: FindOptions) {
    && r.Done? && r.result.total == (if o.includeTotal then Some(|want|) else None)
    && PageFrom(r.result.rows, want, rows, if o.offset.Some? then o.offset.value else 0,
                if o.limit.Some? then o.limit.value else 4294967295)
  }

  lemma {:induction false} EnumeratedSize(ids: seq<nat>, want: set<nat>)
    requires Enumerates(ids, want)
    ensures |ids| == |want|
  {
    if ids == [] {
      assert want == {};
    } else {
      var last := ids[|ids| - 1];
      assert ids == ids[..|ids| - 1] + [last];
      EnumeratedSize(ids[..|ids| - 1], want - {last});
      assert last in want;
    }
  }

  /** The listed rows that pass are the wanted ones. */
  lemma FoundAre(list: seq<BTree.Entry>, rows: Rows, col: nat, op: FilterOp, v: Value, want: set<nat>)
    requires Lists(list, rows) && want <= rows.Keys
    requires forall e :: e in list ==> (Hit(e, rows, col, op, v) <==> e.id in want)
    ensures var found := Having(list, rows, col, op, v);
            && Enumerates(Ids(found), want) && |found| == |want| && forall i :: 0 <= i < |found| ==> ListedRow(found[i], rows)
  {
    var found := Having(list, rows, col, op, v);
    HavingIs(list, rows, col, op, v);
    forall e | e in list ensures ListedRow(e, rows) {
      var k :| 0 <= k < |list| && list[k] == e;
    }
    forall id | id in want ensures exists e :: e in list && e.id == id {
      var k :| 0 <= k < |list| && list[k].id == id;
      assert list[k] in list;
    }
    SelectedEnumerate(list, found, want);
    EnumeratedSize(Ids(found), want);
  }

  lemma SelectedEnumerate(list: seq<BTree.Entry>, found: seq<BTree.Entry>, want: set<nat>)
    requires Sorted(found) && forall e :: e in found <==> e in list && e.id in want
    requires forall id :: id in want ==> exists e :: e in list && e.id == id
    ensures Enumerates(Ids(found), want)
  {
    forall id | id in want ensures id in Ids(found) {
      var e :| e in list && e.id == id;
      var i :| 0 <= i < |found| && found[i] == e;
      assert Ids(found)[i] == id;
    }
    forall id | id in Ids(found) ensures id in want {
      var i :| 0 <= i < |found| && Ids(found)[i] == id;
      assert found[i] in found;
    }
  }

  lemma PageShows(found: seq<BTree.Entry>, want: set<nat>, rows: Rows, offset: nat, limit: nat)
    requires Enumerates(Ids(found), want) && forall i :: 0 <= i < |found| ==> ListedRow(found[i], rows)
    ensures PageFrom(PageOf(found, offset, limit), want, rows, offset, limit)
  {
    assert Shows(PageOf(found, offset, limit), Ids(found), rows, offset, limit);
  }

  /** Answering with the listed rows that pass is the right answer. */
  lemma AnswerRight(list: seq<BTree.Entry>, rows: Rows, col: nat, op: FilterOp, v: Value, want: set<nat>, o: FindOptions)
    requires Lists(list, rows) && want <= rows.Keys
    requires forall e :: e in list ==> (Hit(e, rows, col, op, v) <==> e.id in want)
    ensures Answers(Done(Answered(Having(list, rows, col, op, v), o)), want, rows, o)
  {
    FoundAre(list, rows, col, op, v, want);
    PageShows(Having(list, rows, col, op, v), want, rows, Offset0(o), Limit0(o));
  }

  /** A listed row passes exactly when it meets the comparison. */
  lemma HitMeets(list: seq<BTree.Entry>, rows: Rows, col: nat, op: FilterOp, v: Value)
    requires Lists(list, rows) && Comparable(list, rows, col, v)
    ensures forall e :: e in list ==> (Hit(e, rows, col, op, v) <==> e.id in Meeting(rows, col, op, v))
  {
    forall e | e in list ensures Hit(e, rows, col, op, v) <==> e.id in Meeting(rows, col, op, v) {
      var i :| 0 <= i < |list| && list[i] == e;
      EvalMeets(ValueOf(rows[e.id], col), op, v);
    }
  }

  // ----- finding by index -----

  /** What a search for the rows in `found` returns. */
  function Answered(found: seq<BTree.Entry>, o: FindOptions): FindResult {
    FindResult(PageOf(found, Offset0(o), Limit0(o)), if o.includeTotal then Some(|found|) else None)
  }

  /** How many keys the index is asked for. */
  function Need(o: FindOptions): Option<nat> {
    if o.includeTotal then None else Some(Offset0(o) + Limit0(o))
  }

  /** The clipped key list belongs to a prefix of the matching rows that is long enough for the page. */
  lemma ClippedKeys(p: seq<Byte>, found: seq<BTree.Entry>, o: FindOptions) returns (n: nat)
    ensures n <= |found| && Clip(RowKeys(p, found), Need(o)) == RowKeys(p, found[..n])
    ensures o.includeTotal ==> n == |found|
    ensures n == |found| || n >= Offset0(o) + Limit0(o)
  {
    var most := if Offset0(o) + Limit0(o) == 0 then 1 else Offset0(o) + Limit0(o);
    n := if o.includeTotal || |found| <= most then |found| else most;
    assert RowKeys(p, found)[..n] == RowKeys(p, found[..n]);
    assert found[..|found|] == found;
  }

  lemma {:induction false} WholeNamed(rows: seq<BTree.Entry>, ids: seq<nat>, over: map<nat, OverPage>)
    ensures Whole(Named(rows, ids), over) == Named(Whole(rows, over), ids)
  {
    if rows != [] {
      WholeNamed(rows[1..], ids, over);
      assert Whole(rows, over)[1..] == Whole(rows[1..], over);
      WholeConcat(if rows[0].id in ids then [rows[0]] else [], Named(rows[1..], ids), over);
    }
  }

  method RowidsOf(keys: seq<seq<Byte>>, t: Type, ghost v: Value, ghost found: seq<BTree.Entry>) returns (ids: seq<nat>)
    requires Indexable(t, v) && keys == RowKeys(PrefixOf(t, v), found) && forall e :: e in found ==> e.id < TWO_64
    ensures ids == Ids(found)
  {
    ids := [];
    for i := 0 to |keys|
      invariant ids == Ids(found)[..i]
    {
      assert found[i] in found;
      SingleRowid(t, v, found[i].id);
      ids := ids + [ExtractRowid(t, keys[i])];
    }
  }

  lemma SortedIds(list: seq<BTree.Entry>)
    requires Sorted(list)
    ensures SortIds(Ids(list)) == Ids(list) && Ascending(Ids(list))
  {
    SortedStay(Ids(list));
  }

  /** The rows of a stored tree as a scan returns them are sorted and have ids in range. */
  lemma ListedSorted(t: Tree, h: nat, over: map<nat, OverPage>)
    requires Wf(t, h, 0, MAX_ID, ROW_BRANCH_KEYS, 1)
    ensures Sorted(Whole(TreeRows(t), over)) && forall e :: e in Whole(TreeRows(t), over) ==> e.id < MAX_ID
  {
    FringeSorted(t, h, 0, MAX_ID, ROW_BRANCH_KEYS, 1);
  }

  /** Fetches the rows of the clipped keys and cuts the page out of them. */
  method FetchPage(table: BTreeReader, keys: seq<seq<Byte>>, o: FindOptions,
                   ghost t: Tree, ghost h: nat, ghost over: map<nat, OverPage>,
                   colType: Type, ghost rows: Rows, ghost col: nat, ghost v: Value)
      returns (r: ScanOutcome<FindResult>)
    requires table.guard.Valid() && Stored(table.guard.View(), table.root, t, h, table.guard.Next())
    requires over == Over(table.guard.View())
    requires Indexable(colType, v)
    requires keys == Clip(RowKeys(PrefixOf(colType, v), Having(Whole(TreeRows(t), over), rows, col, OpEq, v)), Need(o))
    ensures r == Done(Answered(Having(Whole(TreeRows(t), over), rows, col, OpEq, v), o))
  {
    ListedSorted(t, h, over);
    ghost var first := FirstFound(Whole(TreeRows(t), over), rows, col, v, o, PrefixOf(colType, v), keys);
    var ids := RowidsOf(keys, colType, v, first);
    ids := SortIds(ids);
    SortedIds(first);
    WholeNamed(TreeRows(t), ids, over);
    var got := table.MultiGetSorted(ids, t, h, over);
    r := Done(Answered(got.result, o));
  }

  /** The matching rows the clipped keys belong to: enough of them for the page. */
  lemma FirstFound(list: seq<BTree.Entry>, rows: Rows, col: nat, v: Value, o: FindOptions, p: seq<Byte>, keys: seq<seq<Byte>>)
      returns (first: seq<BTree.Entry>)
    requires Sorted(list) && forall e :: e in list ==> e.id < MAX_ID
    requires keys == Clip(RowKeys(p, Having(list, rows, col, OpEq, v)), Need(o))
    ensures keys == RowKeys(p, first) && Sorted(first) && (forall e :: e in first ==> e.id < MAX_ID)
    ensures Named(list, Ids(first)) == first
    ensures Answered(first, o) == Answered(Having(list, rows, col, OpEq, v), o)
  {
    var found := Having(list, rows, col, OpEq, v);
    var n := ClippedKeys(p, found, o);
    first := found[..n];
    HavingIs(list, rows, col, OpEq, v);
    assert forall e :: e in first ==> e in found;
    NamedHaving(list, rows, col, OpEq, v, n);
    PageOfPrefix(found, n, Offset0(o), Limit0(o));
  }

  /**
   * Finding by index: scan the index for the value's prefix, no further than the page needs
   * unless a total is asked for, fetch the rows, cut out the page.
   */
  method FindByIndex(index: IndexTreeReader, table: BTreeReader, v: Value, o: FindOptions, spec: IndexSpec,
                     ghost it: Tree, ghost ih: nat, ghost t: Tree, ghost h: nat, ghost over: map<nat, OverPage>,
                     ghost rows: Rows, ghost tree: set<seq<Byte>>)
      returns (r: ScanOutcome<FindResult>)
    requires index.guard.Valid() && IndexStored(index.guard.View(), index.root, it, ih, index.guard.Next())
    requires table.guard.Valid() && Stored(table.guard.View(), table.root, t, h, table.guard.Next())
    requires over == Over(table.guard.View())
    requires Indexed(spec, rows, tree, Whole(TreeRows(t), over), Keys(TreeRows(it))) && Sought(spec, v)
    requires |PrefixOf(spec.types[0], v)| <= BRANCH_KEY_MAX
    ensures Answers(r, With(rows, spec.cols[0], v), rows, o)
    ensures r == Done(Answered(Having(Whole(TreeRows(t), over), rows, spec.cols[0], OpEq, v), o))
  {
    ghost var list := Whole(TreeRows(t), over);
    var keys := KeysFor(index, v, Need(o), spec, it, ih, list, rows, tree);
    r := FetchPage(table, keys, o, t, h, over, spec.types[0], rows, spec.cols[0], v);
    HitIsEqual(spec, rows, list, v);
    AnswerRight(list, rows, spec.cols[0], OpEq, v, With(rows, spec.cols[0], v), o);
  }

  /** The index keys of the matching rows, as many as asked for. */
  method KeysFor(index: IndexTreeReader, v: Value, need: Option<nat>, spec: IndexSpec, ghost it: Tree, ghost ih: nat,
                 ghost list: seq<BTree.Entry>, ghost rows: Rows, ghost tree: set<seq<Byte>>)
      returns (keys: seq<seq<Byte>>)
    requires index.guard.Valid() && IndexStored(index.guard.View(), index.root, it, ih, index.guard.Next())
    requires Indexed(spec, rows, tree, list, Keys(TreeRows(it))) && Sought(spec, v)
    requires |PrefixOf(spec.types[0], v)| <= BRANCH_KEY_MAX
    ensures keys == Clip(RowKeys(PrefixOf(spec.types[0], v), Having(list, rows, spec.cols[0], OpEq, v)), need)
  {
    MatchingIsHaving(spec, rows, tree, list, Keys(TreeRows(it)), v);
    var got := index.ScanPrefix(PrefixOf(spec.types[0], v), need, it, ih);
    keys := got.result;
  }

  method CountByIndex(index: IndexTreeReader, v: Value, spec: IndexSpec, ghost it: Tree, ghost ih: nat,
                      ghost list: seq<BTree.Entry>, ghost rows: Rows, ghost tree: set<seq<Byte>>)
      returns (r: ScanOutcome<nat>)
    requires index.guard.Valid() && IndexStored(index.guard.View(), index.root, it, ih, index.guard.Next())
    requires Indexed(spec, rows, tree, list, Keys(TreeRows(it))) && Sought(spec, v)
    requires |PrefixOf(spec.types[0], v)| <= BRANCH_KEY_MAX
    ensures r == Done(|With(rows, spec.cols[0], v)|)
  {
    MatchingIsHaving(spec, rows, tree, list, Keys(TreeRows(it)), v);
    HitIsEqual(spec, rows, list, v);
    FoundAre(list, rows, spec.cols[0], OpEq, v, With(rows, spec.cols[0], v));
    r := index.CountPrefix(PrefixOf(spec.types[0], v), it, ih);
  }

  // ----- finding by a filtered scan -----

  /** Whether one row, as bytes, passes: raw bytes when they decide, else the decoded value, null if absent. */
  method RowMatches(data: seq<Byte>, col: nat, op: FilterOp, v: Value, ghost rowid: nat, ghost row: seq<Col>) returns (m: bool)
    requires RowFits(rowid, row) && Ascend(row) && data == Encoded(rowid, row) && !CrossNumeric(ValueOf(row, col), v)
    ensures m == EvalOp(ValueOf(row, col), op, v)
  {
    ExtractAgrees(rowid, row, col);
    LookupOk(row, col);
    var raw := ExtractColumnRaw(data, col);
    if raw.Some? && raw.value.Some? {
      var decided := EvalRaw(raw.value.value, op, v);
      RawAgrees(ValueOf(row, col), Filter("", op, v, None));
      if decided.Some? { return decided.value; }
      var stored := ExtractColumn(data, col);
      var actual := if stored.value.Some? then stored.value.value else Null;
      return EvalOp(actual, op, v);
    }
    return EvalOp(Null, op, v);
  }

  method HitRow(e: BTree.Entry, col: nat, op: FilterOp, v: Value, ghost rows: Rows) returns (m: bool)
    requires RowJudged(e, rows, col, v)
    ensures m == Hit(e, rows, col, op, v)
  {
    m := RowMatches(e.data, col, op, v, e.id, rows[e.id]);
  }

  /** Rows without overflow chains are what they are stored as. */
  ghost predicate Inline(list: seq<BTree.Entry>) {
    forall e :: e in list ==> !HasOverflow(e.data)
  }

  lemma InlineWhole(list: seq<BTree.Entry>, over: map<nat, OverPage>)
    requires Inline(list)
    ensures Whole(list, over) == list
  {
    forall i | 0 <= i < |list| ensures WholeRow(list[i], over) == list[i] { assert list[i] in list; }
  }

  /** A stored table without overflow rows whose rows are these, none of them comparing an integer with a real. */
  ghost predicate Filterable(table: BTreeReader, t: Tree, h: nat, rows: Rows, col: nat, v: Value)
    reads table, table.guard, table.guard.file
  {
    && table.guard.Valid() && Stored(table.guard.View(), table.root, t, h, table.guard.Next())
    && Inline(TreeRows(t)) && Lists(TreeRows(t), rows) && Comparable(TreeRows(t), rows, col, v)
  }

  lemma ListedJudged(list: seq<BTree.Entry>, rows: Rows, col: nat, v: Value)
    requires Lists(list, rows) && Comparable(list, rows, col, v)
    ensures Judged(list, rows, col, v)
  {
    forall i | 0 <= i < |list| ensures RowJudged(list[i], rows, col, v) { assert ListedRow(list[i], rows); }
  }

  /** How many rows the leaves before leaf `j` hold. */
  ghost function Before(f: seq<LeafRec>, j: nat): nat
    requires j <= |f|
  {
    |BTreeLeaves.Rows(f[..j])|
  }

  /** Leaf `j` holds the rows from there on. */
  lemma LeafStretch(f: seq<LeafRec>, j: nat)
    requires j < |f|
    ensures Before(f, j + 1) == Before(f, j) + |f[j].rows| <= |BTreeLeaves.Rows(f)|
    ensures BTreeLeaves.Rows(f)[Before(f, j)..Before(f, j + 1)] == f[j].rows
    ensures j + 1 == |f| ==> Before(f, j + 1) == |BTreeLeaves.Rows(f)|
  {
    CutAround(f, j);
    RowsConcat(f[..j], [f[j]]);
    RowsConcat(f[..j + 1], f[j + 1..]);
    CutAt(f, j + 1);
    assert BTreeLeaves.Rows([f[j]]) == f[j].rows + BTreeLeaves.Rows([]);
    assert j + 1 == |f| ==> f[..j + 1] == f;
  }

  /** Leaf `j` on its page, linked to the next. */
  ghost predicate LeafOn(v: Pages, f: seq<LeafRec>, j: nat)
    requires j < |f|
  {
    && f[j].page in v && v[f[j].page].LeafPage? && v[f[j].page].rows == f[j].rows
    && if v[f[j].page].next == 0 then j + 1 == |f| else j + 1 < |f| && v[f[j].page].next == f[j + 1].page
  }

  ghost predicate Walks(v: Pages, f: seq<LeafRec>) {
    forall j: nat :: j < |f| ==> LeafOn(v, f, j)
  }

  lemma StoredWalks(v: Pages, t: Tree, next: nat)
    requires Holds(v, t) && BTreeWriter.Linked(v, LeafPages(Fringe(t)))
    ensures Walks(v, Fringe(t))
  {
    forall j: nat | j < |Fringe(t)| ensures LeafOn(v, Fringe(t), j) { ChainOn(v, t, next, j); }
  }

  lemma ChainOn(v: Pages, t: Tree, next: nat, j: nat)
    requires Holds(v, t) && BTreeWriter.Linked(v, LeafPages(Fringe(t))) && j < |Fringe(t)|
    ensures LeafOn(v, Fringe(t), j)
  {
    var ps := LeafPages(Fringe(t));
    ChainRead(v, t, next, j);
    if j + 1 < |Fringe(t)| {
      ChainRead(v, t, next, j + 1);
      assert BTreeStored.At(ps, j + 1) == Fringe(t)[j + 1].page;
    } else {
      assert BTreeStored.At(ps, j + 1) == 0;
    }
  }

  lemma JudgedPart(list: seq<BTree.Entry>, from: nat, to: nat, rows: Rows, col: nat, v: Value)
    requires from <= to <= |list| && Judged(list, rows, col, v)
    ensures Judged(list[from..to], rows, col, v)
  {
    forall i | 0 <= i < to - from ensures RowJudged(list[from..to][i], rows, col, v) { assert RowJudged(list[from + i], rows, col, v); }
  }

  /** The rows of a leaf, where they are in the list of all rows, and its forward link. */
  method LeafAt(guard: WriteGuard, current: nat, ghost f: seq<LeafRec>, ghost j: nat, ghost rows: Rows, ghost col: nat, ghost v: Value)
      returns (leaf: seq<BTree.Entry>, next: nat)
    requires guard.Valid() && Walks(guard.View(), f) && j < |f| && current == f[j].page && Judged(BTreeLeaves.Rows(f), rows, col, v)
    ensures var from := Before(f, j);
            && from + |leaf| == Before(f, j + 1) <= |BTreeLeaves.Rows(f)|
            && BTreeLeaves.Rows(f)[from..from + |leaf|] == leaf && Judged(leaf, rows, col, v)
    ensures if next == 0 then j + 1 == |f| && Before(f, j + 1) == |BTreeLeaves.Rows(f)| else j + 1 < |f| && next == f[j + 1].page
  {
    LeafStretch(f, j);
    JudgedPart(BTreeLeaves.Rows(f), Before(f, j), Before(f, j + 1), rows, col, v);
    assert LeafOn(guard.View(), f, j);
    var page := guard.ReadPage(current);
    leaf, next := page.value.rows, page.value.next;
  }

  /** A listed row that compares with the value. */
  ghost predicate RowJudged(e: BTree.Entry, rows: Rows, col: nat, v: Value) {
    ListedRow(e, rows) && !CrossNumeric(ValueOf(rows[e.id], col), v)
  }

  ghost predicate Judged(list: seq<BTree.Entry>, rows: Rows, col: nat, v: Value) {
    forall i :: 0 <= i < |list| ==> RowJudged(list[i], rows, col, v)
  }

  /** The page and the number of what has passed among the first `to` rows. */
  ghost predicate PagedTo(results: seq<BTree.Entry>, total: nat, list: seq<BTree.Entry>, to: nat,
                          rows: Rows, col: nat, op: FilterOp, v: Value, offset: nat, limit: nat)
  {
    to <= |list| && Paged(results, total, Having(list[..to], rows, col, op, v), offset, limit)
  }

  lemma NothingYet(f: seq<LeafRec>, rows: Rows, col: nat, op: FilterOp, v: Value, offset: nat, limit: nat)
    ensures Before(f, 0) == 0 && PagedTo([], 0, BTreeLeaves.Rows(f), 0, rows, col, op, v, offset, limit)
    ensures CountedTo(0, BTreeLeaves.Rows(f), 0, rows, col, op, v)
  {
    assert f[..0] == [] && BTreeLeaves.Rows(f)[..0] == [];
  }

  /** One row: whether it passes, and the page and number with it. */
  method FilterRow(e: BTree.Entry, col: nat, op: FilterOp, v: Value, limit: nat, offset: nat, results: seq<BTree.Entry>, total: nat,
                   ghost list: seq<BTree.Entry>, ghost to: nat, ghost rows: Rows)
      returns (m: bool, more: seq<BTree.Entry>, count: nat)
    requires to < |list| && e == list[to] && RowJudged(e, rows, col, v)
    requires PagedTo(results, total, list, to, rows, col, op, v, offset, limit)
    ensures PagedTo(more, count, list, to + 1, rows, col, op, v, offset, limit) && count == total + if m then 1 else 0
  {
    m := HitRow(e, col, op, v, rows);
    PageStep(list, to, rows, col, op, v, results, total, offset, limit);
    if !m {
      return m, results, total;
    }
    return m, if total + 1 > offset && total + 1 - offset <= limit then results + [e] else results, total + 1;
  }

  /** The rows of one leaf; `stopped` when told to stop after that many matches. */
  method FilterLeaf(leaf: seq<BTree.Entry>, col: nat, op: FilterOp, v: Value, limit: nat, offset: nat, stopAfter: Option<nat>,
                    results: seq<BTree.Entry>, total: nat, ghost list: seq<BTree.Entry>, ghost from: nat, ghost rows: Rows)
      returns (more: seq<BTree.Entry>, count: nat, stopped: bool, ghost to: nat)
    requires from + |leaf| <= |list| && list[from..from + |leaf|] == leaf && Judged(leaf, rows, col, v)
    requires PagedTo(results, total, list, from, rows, col, op, v, offset, limit)
    ensures PagedTo(more, count, list, to, rows, col, op, v, offset, limit)
    ensures if stopped then stopAfter.Some? && count >= stopAfter.value else to == from + |leaf|
  {
    more, count, stopped, to := results, total, false, from;
    for i := 0 to |leaf|
      invariant to == from + i && PagedTo(more, count, list, to, rows, col, op, v, offset, limit)
    {
      assert leaf[i] == list[from..from + |leaf|][i] == list[from + i];
      var m;
      m, more, count := FilterRow(leaf[i], col, op, v, limit, offset, more, count, list, to, rows);
      to := to + 1;
      if m && stopAfter.Some? && count >= stopAfter.value {
        stopped := true;
        return;
      }
    }
  }

  /** The rows of the leaf on the page, and its forward link. */
  method FilterNext(guard: WriteGuard, current: nat, col: nat, op: FilterOp, v: Value, limit: nat, offset: nat, stopAfter: Option<nat>,
                    results: seq<BTree.Entry>, total: nat, ghost f: seq<LeafRec>, ghost j: nat, ghost rows: Rows)
      returns (more: seq<BTree.Entry>, count: nat, stopped: bool, next: nat, ghost to: nat)
    requires guard.Valid() && Walks(guard.View(), f) && j < |f| && current == f[j].page && Judged(BTreeLeaves.Rows(f), rows, col, v)
    requires PagedTo(results, total, BTreeLeaves.Rows(f), Before(f, j), rows, col, op, v, offset, limit)
    ensures PagedTo(more, count, BTreeLeaves.Rows(f), to, rows, col, op, v, offset, limit)
    ensures if stopped then stopAfter.Some? && count >= stopAfter.value else to == Before(f, j + 1)
    ensures if next == 0 then j + 1 == |f| && Before(f, j + 1) == |BTreeLeaves.Rows(f)| else j + 1 < |f| && next == f[j + 1].page
  {
    var leaf;
    leaf, next := LeafAt(guard, current, f, j, rows, col, v);
    more, count, stopped, to := FilterLeaf(leaf, col, op, v, limit, offset, stopAfter, results, total, BTreeLeaves.Rows(f), Before(f, j), rows);
  }

  /**
   * The walk along the leaves: the first rows passing, skipping and taking as asked, and how
   * many have passed; stops early if told to.
   */
  method ScanFiltered(table: BTreeReader, col: nat, op: FilterOp, v: Value, limit: nat, offset: nat, stopAfter: Option<nat>,
                      ghost t: Tree, ghost h: nat, ghost rows: Rows)
      returns (r: ScanOutcome<(seq<BTree.Entry>, nat)>)
    requires Filterable(table, t, h, rows, col, v)
    ensures r.Done?
    ensures stopAfter.None? ==> r.result.1 == |Meeting(rows, col, op, v)|
    ensures stopAfter.None? || stopAfter.value >= offset + limit ==>
              && PageFrom(r.result.0, Meeting(rows, col, op, v), rows, offset, limit)
              && r.result.0 == PageOf(Having(TreeRows(t), rows, col, op, v), offset, limit)
  {
    var first := table.FindLeftmostLeaf(t, h);
    FewLeaves(t, table.guard.Next());
    StoredWalks(table.guard.View(), t, table.guard.Next());
    ListedJudged(TreeRows(t), rows, col, v);
    r := WalkFiltered(table.guard, first.value, table.guard.file.numPages + table.guard.newPageCount,
                      col, op, v, limit, offset, stopAfter, Fringe(t), rows);
    HitMeets(TreeRows(t), rows, col, op, v);
    FoundAre(TreeRows(t), rows, col, op, v, Meeting(rows, col, op, v));
    PageShows(Having(TreeRows(t), rows, col, op, v), Meeting(rows, col, op, v), rows, offset, limit);
  }

  method WalkFiltered(guard: WriteGuard, first: nat, maxPages: nat, col: nat, op: FilterOp, v: Value, limit: nat, offset: nat,
                      stopAfter: Option<nat>, ghost f: seq<LeafRec>, ghost rows: Rows)
      returns (r: ScanOutcome<(seq<BTree.Entry>, nat)>)
    requires guard.Valid() && Walks(guard.View(), f) && 0 < |f| <= maxPages && first == f[0].page
    requires Judged(BTreeLeaves.Rows(f), rows, col, v)
    ensures var all := Having(BTreeLeaves.Rows(f), rows, col, op, v);
            && r.Done? && (stopAfter.None? ==> r.result.1 == |all|)
            && (stopAfter.None? || stopAfter.value >= offset + limit ==> r.result.0 == PageOf(all, offset, limit))
  {
    ghost var j, to, list := 0, 0, BTreeLeaves.Rows(f);
    var visited, results, total: nat, current := 0, [], 0, first;
    NothingYet(f, rows, col, op, v, offset, limit);
    while true
      invariant j < |f| && current == f[j].page && visited == j
      invariant PagedTo(results, total, list, Before(f, j), rows, col, op, v, offset, limit)
      decreases |f| - j
    {
      visited := visited + 1;
      if visited > maxPages {
        return ChainCycleError;
      }
      var stopped, next;
      results, total, stopped, next, to := FilterNext(guard, current, col, op, v, limit, offset, stopAfter, results, total, f, j, rows);
      if stopped || next == 0 {
        PageEnds(list, to, rows, col, op, v, offset, limit);
        return Done((results, total));
      }
      j, current := j + 1, next;
    }
  }

  ghost predicate CountedTo(count: nat, list: seq<BTree.Entry>, to: nat, rows: Rows, col: nat, op: FilterOp, v: Value) {
    to <= |list| && count == |Having(list[..to], rows, col, op, v)|
  }

  lemma CountStep(count: nat, list: seq<BTree.Entry>, to: nat, rows: Rows, col: nat, op: FilterOp, v: Value)
    requires to < |list| && CountedTo(count, list, to, rows, col, op, v)
    ensures CountedTo(if Hit(list[to], rows, col, op, v) then count + 1 else count, list, to + 1, rows, col, op, v)
  {
    HavingNext(list, to, rows, col, op, v);
  }

  /** The page of what has passed so far, and how much that is. */
  ghost predicate Paged(results: seq<BTree.Entry>, total: nat, passed: seq<BTree.Entry>, offset: nat, limit: nat) {
    total == |passed| && results == PageOf(passed, offset, limit)
  }

  lemma PageStep(list: seq<BTree.Entry>, i: nat, rows: Rows, col: nat, op: FilterOp, v: Value,
                 results: seq<BTree.Entry>, total: nat, offset: nat, limit: nat)
    requires i < |list| && Paged(results, total, Having(list[..i], rows, col, op, v), offset, limit)
    ensures var next := if total + 1 > offset && total + 1 - offset <= limit then results + [list[i]] else results;
            if Hit(list[i], rows, col, op, v) then Paged(next, total + 1, Having(list[..i + 1], rows, col, op, v), offset, limit)
            else Paged(results, total, Having(list[..i + 1], rows, col, op, v), offset, limit)
  {
    HavingNext(list, i, rows, col, op, v);
    PageGrows(Having(list[..i], rows, col, op, v), list[i], offset, limit);
  }

  /** Stopping at the end, or once the page is full, gives the page of all that pass. */
  lemma PageEnds(list: seq<BTree.Entry>, i: nat, rows: Rows, col: nat, op: FilterOp, v: Value, offset: nat, limit: nat)
    requires i <= |list|
    ensures i == |list| ==> list[..i] == list
    ensures |Having(list[..i], rows, col, op, v)| >= offset + limit ==>
      PageOf(Having(list[..i], rows, col, op, v), offset, limit) == PageOf(Having(list, rows, col, op, v), offset, limit)
  {
    HavingPrefix(list, i, rows, col, op, v);
    PageOfStart(Having(list[..i], rows, col, op, v), Having(list, rows, col, op, v), offset, limit);
  }

  /** No integer meets a real. */
  ghost predicate Comparable(list: seq<BTree.Entry>, rows: Rows, col: nat, v: Value) {
    forall i :: 0 <= i < |list| ==> list[i].id in rows && !CrossNumeric(ValueOf(rows[list[i].id], col), v)
  }

  lemma {:induction false} HavingConcat(a: seq<BTree.Entry>, b: seq<BTree.Entry>, rows: Rows, col: nat, op: FilterOp, v: Value)
    ensures Having(a + b, rows, col, op, v) == Having(a, rows, col, op, v) + Having(b, rows, col, op, v)
  {
    if a == [] {
      EmptyFront(a, b);
    } else {
      TailOfConcat(a, b);
      HavingConcat(a[1..], b, rows, col, op, v);
      Assoc(if Hit(a[0], rows, col, op, v) then [a[0]] else [], Having(a[1..], rows, col, op, v), Having(b, rows, col, op, v));
    }
  }

  lemma HavingNext(list: seq<BTree.Entry>, i: nat, rows: Rows, col: nat, op: FilterOp, v: Value)
    requires i < |list|
    ensures Having(list[..i + 1], rows, col, op, v) ==
      Having(list[..i], rows, col, op, v) + (if Hit(list[i], rows, col, op, v) then [list[i]] else [])
  {
    CutAround(list, i);
    HavingConcat(list[..i], [list[i]], rows, col, op, v);
    assert [list[i]][1..] == [];
  }

  lemma HavingPrefix(list: seq<BTree.Entry>, i: nat, rows: Rows, col: nat, op: FilterOp, v: Value)
    requires i <= |list|
    ensures Having(list[..i], rows, col, op, v) <= Having(list, rows, col, op, v)
  {
    CutAt(list, i);
    HavingConcat(list[..i], list[i..], rows, col, op, v);
  }

  lemma PageGrows<T>(passed: seq<T>, x: T, offset: nat, limit: nat)
    ensures PageOf(passed + [x], offset, limit) ==
      PageOf(passed, offset, limit) + (if |passed| + 1 > offset && |passed| + 1 - offset <= limit then [x] else [])
  {
  }

  lemma PageOfStart<T>(passed: seq<T>, all: seq<T>, offset: nat, limit: nat)
    requires passed <= all
    ensures |passed| >= offset + limit ==> PageOf(passed, offset, limit) == PageOf(all, offset, limit)
  {
    assert passed == all[..|passed|];
  }

  /** Finding by a scan, with the early stop a bounded search without total allows. */
  method FindByScan(table: BTreeReader, col: nat, v: Value, o: FindOptions, ghost t: Tree, ghost h: nat, ghost rows: Rows)
      returns (r: ScanOutcome<FindResult>)
    requires Filterable(table, t, h, rows, col, v)
    ensures Answers(r, Meeting(rows, col, OpEq, v), rows, o)
    ensures r == Done(Answered(Having(TreeRows(t), rows, col, OpEq, v), o))
  {
    var stop := if !o.includeTotal && o.limit.Some? then Some(Offset0(o) + o.limit.value) else None;
    var found := ScanFiltered(table, col, OpEq, v, Limit0(o), Offset0(o), stop, t, h, rows);
    r := Done(FindResult(found.result.0, if o.includeTotal then Some(found.result.1) else None));
    HitMeets(TreeRows(t), rows, col, OpEq, v);
    FoundAre(TreeRows(t), rows, col, OpEq, v, Meeting(rows, col, OpEq, v));
  }

  method CountRow(e: BTree.Entry, col: nat, op: FilterOp, v: Value, count: nat, ghost list: seq<BTree.Entry>, ghost to: nat, ghost rows: Rows)
      returns (more: nat)
    requires to < |list| && e == list[to] && RowJudged(e, rows, col, v) && CountedTo(count, list, to, rows, col, op, v)
    ensures CountedTo(more, list, to + 1, rows, col, op, v)
  {
    CountStep(count, list, to, rows, col, op, v);
    var m := HitRow(e, col, op, v, rows);
    more := if m then count + 1 else count;
  }

  method CountLeaf(leaf: seq<BTree.Entry>, col: nat, op: FilterOp, v: Value, count: nat,
                   ghost list: seq<BTree.Entry>, ghost from: nat, ghost rows: Rows)
      returns (more: nat)
    requires from + |leaf| <= |list| && list[from..from + |leaf|] == leaf && Judged(leaf, rows, col, v)
    requires CountedTo(count, list, from, rows, col, op, v)
    ensures CountedTo(more, list, from + |leaf|, rows, col, op, v)
  {
    more := count;
    for i := 0 to |leaf|
      invariant CountedTo(more, list, from + i, rows, col, op, v)
    {
      assert leaf[i] == list[from..from + |leaf|][i] == list[from + i];
      more := CountRow(leaf[i], col, op, v, more, list, from + i, rows);
    }
  }

  /** The same walk, counting. */
  method CountFiltered(table: BTreeReader, col: nat, op: FilterOp, v: Value, ghost t: Tree, ghost h: nat, ghost rows: Rows)
      returns (r: ScanOutcome<nat>)
    requires Filterable(table, t, h, rows, col, v)
    ensures r == Done(|Meeting(rows, col, op, v)|)
  {
    var first := table.FindLeftmostLeaf(t, h);
    FewLeaves(t, table.guard.Next());
    StoredWalks(table.guard.View(), t, table.guard.Next());
    ListedJudged(TreeRows(t), rows, col, v);
    r := WalkCounting(table.guard, first.value, table.guard.file.numPages + table.guard.newPageCount, col, op, v, Fringe(t), rows);
    HitMeets(TreeRows(t), rows, col, op, v);
    FoundAre(TreeRows(t), rows, col, op, v, Meeting(rows, col, op, v));
  }

  method WalkCounting(guard: WriteGuard, first: nat, maxPages: nat, col: nat, op: FilterOp, v: Value, ghost f: seq<LeafRec>, ghost rows: Rows)
      returns (r: ScanOutcome<nat>)
    requires guard.Valid() && Walks(guard.View(), f) && 0 < |f| <= maxPages && first == f[0].page
    requires Judged(BTreeLeaves.Rows(f), rows, col, v)
    ensures r == Done(|Having(BTreeLeaves.Rows(f), rows, col, op, v)|)
  {
    ghost var j, list := 0, BTreeLeaves.Rows(f);
    var visited, count: nat, current := 0, 0, first;
    NothingYet(f, rows, col, op, v, 0, 0);
    while true
      invariant j < |f| && current == f[j].page && visited == j
      invariant CountedTo(count, list, Before(f, j), rows, col, op, v)
      decreases |f| - j
    {
      visited := visited + 1;
      if visited > maxPages {
        return ChainCycleError;
      }
      var leaf, next := LeafAt(guard, current, f, j, rows, col, v);
      count := CountLeaf(leaf, col, op, v, count, list, Before(f, j), rows);
      if next == 0 {
        assert list[..|list|] == list;
        return Done(count);
      }
      j, current := j + 1, next;
    }
  }

  /** Both ways of finding, and both ways of counting, give the same. */
  method FindBothWays(index: IndexTreeReader, table: BTreeReader, v: Value, o: FindOptions, spec: IndexSpec,
                      ghost it: Tree, ghost ih: nat, ghost t: Tree, ghost h: nat, ghost over: map<nat, OverPage>,
                      ghost rows: Rows, ghost tree: set<seq<Byte>>)
      returns (byIndex: ScanOutcome<FindResult>, byScan: ScanOutcome<FindResult>)
    requires index.guard.Valid() && IndexStored(index.guard.View(), index.root, it, ih, index.guard.Next())
    requires SingleColumn(spec) && Filterable(table, t, h, rows, spec.cols[0], v) && over == Over(table.guard.View())
    requires Indexed(spec, rows, tree, TreeRows(t), Keys(TreeRows(it))) && Sought(spec, v)
    requires |PrefixOf(spec.types[0], v)| <= BRANCH_KEY_MAX
    ensures byIndex == byScan && Answers(byIndex, With(rows, spec.cols[0], v), rows, o)
  {
    InlineWhole(TreeRows(t), over);
    byIndex := FindByIndex(index, table, v, o, spec, it, ih, t, h, over, rows, tree);
    byScan := FindByScan(table, spec.cols[0], v, o, t, h, rows);
  }
}
