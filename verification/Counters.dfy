/** Keyed counters: what find-or-insert-and-add does, and what a whole run of them adds up to. */
module Counters {
  import opened Values
  import opened Filters
  import opened Gate
  import opened Store

  /** The 64-bit integer with the low bits of `n`, as wrapping addition leaves it. */
  function Wrap(n: int): Int64 {
    Low(n + TWO_63) - TWO_63
  }

  function Low(n: int): Word64 {
    n % TWO_64
  }

  lemma WrapTwice(a: int, b: int)
    ensures Wrap(Wrap(a) + b) == Wrap(a + b)
    ensures -TWO_63 <= a < TWO_63 ==> Wrap(a) == a
    ensures (a - Wrap(a)) % 0x1_0000_0000_0000_0000 == 0
  {
    var k := (a + TWO_63) / TWO_64;
    assert Wrap(a) == a - k * TWO_64;
    ModShift(a + b + TWO_63, -k);
  }

  lemma ModShift(n: int, k: int)
    ensures (n + k * TWO_64) % TWO_64 == n % TWO_64
  {
    var q, q' := n / TWO_64, (n + k * TWO_64) / TWO_64;
    var r, r' := n % TWO_64, (n + k * TWO_64) % TWO_64;
    assert n == q * TWO_64 + r && n + k * TWO_64 == q' * TWO_64 + r';
    assert r' - r == (q + k - q') * TWO_64;
  }

  // ----- one row per key -----

  /** A counted row: its id, the values of its key columns, the counter column, and the other columns by id. */
  datatype Counted = Counted(rowid: nat, key: seq<Value>, counter: Value, others: map<nat, Value>)
  datatype Table = Table(rows: seq<Counted>, nextRowid: nat)

  /** A null counter counts from zero; only integers are added here. */
  function AddCounter(current: Value, d: Int64): Option<Value> {
    match current
    case Null => Some(Integer(d))
    case Integer(c) => Some(Integer(Wrap(c + d)))
    case _ => None
  }

  /** The key up to what equality filters tell apart. */
  function CanonKey(key: seq<Value>): (s: seq<Value>)
    ensures |s| == |key| && forall i :: 0 <= i < |s| ==> s[i] == Canon(key[i])
  {
    seq(|key|, i requires 0 <= i < |key| => Canon(key[i]))
  }

  /** Every key column passes the equality filter with its value. */
  predicate PassesAll(row: seq<Value>, key: seq<Value>)
    requires |row| == |key| && forall i :: 0 <= i < |key| ==> !CrossNumeric(row[i], key[i])
  {
    forall i :: 0 <= i < |key| ==> EvalOp(row[i], OpEq, key[i])
  }

  lemma PassesIsSameKey(row: seq<Value>, key: seq<Value>)
    requires |row| == |key| && forall i :: 0 <= i < |key| ==> !CrossNumeric(row[i], key[i])
    ensures PassesAll(row, key) <==> CanonKey(row) == CanonKey(key)
  {
    forall i | 0 <= i < |key| ensures EvalOp(row[i], OpEq, key[i]) <==> CanonKey(row)[i] == CanonKey(key)[i] {
      EqualIsCanon(row[i], key[i]);
    }
  }

  /** The first row in rowid order whose key columns equal the key. */
  function FindKey(rows: seq<Counted>, key: seq<Value>): (i: nat)
    ensures i <= |rows|
    ensures forall j :: 0 <= j < i ==> CanonKey(rows[j].key) != CanonKey(key)
    ensures i < |rows| ==> CanonKey(rows[i].key) == CanonKey(key)
  {
    if rows == [] || CanonKey(rows[0].key) == CanonKey(key) then 0 else 1 + FindKey(rows[1..], key)
  }

  /** Add to the row's counter and set its other columns, or insert the row with the amount as its counter. */
  function UpsertIncrement(t: Table, key: seq<Value>, d: Int64, fields: map<nat, Value>): Option<(Table, nat)> {
    var i := FindKey(t.rows, key);
    if i < |t.rows| then
      match AddCounter(t.rows[i].counter, d)
      case None => None
      case Some(v) =>
        Some((t.(rows := t.rows[i := t.rows[i].(counter := v, others := t.rows[i].others + fields)]), t.rows[i].rowid))
    else Some((Table(t.rows + [Counted(t.nextRowid, key, Integer(d), fields)], t.nextRowid + 1), t.nextRowid))
  }

  predicate Countable(t: Table) {
    forall i :: 0 <= i < |t.rows| ==> t.rows[i].counter.Null? || t.rows[i].counter.Integer?
  }

  /** What a key has been counted to; zero while it has no row. */
  function Count(t: Table, key: seq<Value>): Int64 {
    var i := FindKey(t.rows, key);
    if i < |t.rows| && t.rows[i].counter.Integer? then t.rows[i].counter.i else 0
  }

  lemma {:induction false} FindUnique(rows: seq<Counted>, key: seq<Value>, i: nat)
    requires i <= |rows| && (forall j :: 0 <= j < i ==> CanonKey(rows[j].key) != CanonKey(key))
    requires i < |rows| ==> CanonKey(rows[i].key) == CanonKey(key)
    ensures FindKey(rows, key) == i
  {
    if i > 0 { FindUnique(rows[1..], key, i - 1); }
  }

  /** One call moves the count of its key by the amount, wrapping, and no other count. */
  lemma UpsertAdds(t: Table, key: seq<Value>, d: Int64, fields: map<nat, Value>, other: seq<Value>)
    requires Countable(t)
    ensures UpsertIncrement(t, key, d, fields).Some?
    ensures var t' := UpsertIncrement(t, key, d, fields).value.0;
            && Countable(t')
            && Count(t', other) == if CanonKey(other) == CanonKey(key) then Wrap(Count(t, key) + d) else Count(t, other)
  {
    var i := FindKey(t.rows, key);
    if i < |t.rows| {
      CountAfterUpdate(t, key, AddCounter(t.rows[i].counter, d).value, fields, other);
    } else {
      CountAfterInsert(t, key, d, fields, other);
    }
    WrapTwice(d, 0);
  }

  /** Keys that filters do not tell apart have one count. */
  lemma SameCount(t: Table, key: seq<Value>, other: seq<Value>)
    ensures CanonKey(other) == CanonKey(key) ==> Count(t, other) == Count(t, key)
  {
    if CanonKey(other) == CanonKey(key) { FindUnique(t.rows, other, FindKey(t.rows, key)); }
  }

  lemma CountAfterUpdate(t: Table, key: seq<Value>, v: Value, fields: map<nat, Value>, other: seq<Value>)
    requires FindKey(t.rows, key) < |t.rows| && v.Integer?
    ensures var i := FindKey(t.rows, key);
            Count(t.(rows := t.rows[i := t.rows[i].(counter := v, others := t.rows[i].others + fields)]), other) ==
            if CanonKey(other) == CanonKey(key) then v.i else Count(t, other)
  {
    var i := FindKey(t.rows, key);
    if CanonKey(other) == CanonKey(key) { FindUnique(t.rows, other, i); }
    FindUnique(t.rows[i := t.rows[i].(counter := v, others := t.rows[i].others + fields)], other, FindKey(t.rows, other));
  }

  lemma CountAfterInsert(t: Table, key: seq<Value>, d: Int64, fields: map<nat, Value>, other: seq<Value>)
    requires FindKey(t.rows, key) == |t.rows|
    ensures Count(Table(t.rows + [Counted(t.nextRowid, key, Integer(d), fields)], t.nextRowid + 1), other) ==
      if CanonKey(other) == CanonKey(key) then d else Count(t, other)
  {
    var k, rows := FindKey(t.rows, other), t.rows + [Counted(t.nextRowid, key, Integer(d), fields)];
    FindUnique(rows, other, if CanonKey(other) == CanonKey(key) || k < |t.rows| then k else |rows|);
  }

  predicate Agree(a: map<nat, Value>, b: map<nat, Value>, c: nat) {
    if c in b then c in a && a[c] == b[c] else c !in a
  }

  /** It is refused exactly when the first row of the key has something in the counter column that is no integer. */
  lemma UpsertRefuses(t: Table, key: seq<Value>, d: Int64, fields: map<nat, Value>)
    ensures UpsertIncrement(t, key, d, fields).None? <==>
      exists i :: && 0 <= i < |t.rows| && CanonKey(t.rows[i].key) == CanonKey(key) && !t.rows[i].counter.Null? && !t.rows[i].counter.Integer?
                  && forall j :: 0 <= j < i ==> CanonKey(t.rows[j].key) != CanonKey(key)
  {
    var i := FindKey(t.rows, key);
    if i < |t.rows| { assert CanonKey(t.rows[i].key) == CanonKey(key); }
  }

  /** Rows have ids of their own, below the next one to hand out. */
  ghost predicate Numbered(t: Table) {
    && (forall i :: 0 <= i < |t.rows| ==> t.rows[i].rowid < t.nextRowid)
    && forall i, j :: 0 <= i < j < |t.rows| ==> t.rows[i].rowid != t.rows[j].rowid
  }

  /**
   * The returned id names one row. If the key had a row it is that one, with the fields set and
   * its other columns kept; else it is a new one under the next id, with no other columns. Every
   * other row is as it was, and ids stay distinct and below the next one.
   */
  lemma UpsertSets(t: Table, key: seq<Value>, d: Int64, fields: map<nat, Value>)
    requires Countable(t) && Numbered(t)
    ensures UpsertIncrement(t, key, d, fields).Some?
    ensures var (t', id) := UpsertIncrement(t, key, d, fields).value;
            && Numbered(t') && (exists i :: 0 <= i < |t'.rows| && t'.rows[i].rowid == id)
            && (forall i :: 0 <= i < |t.rows| && t.rows[i].rowid == id ==>
                 t'.rows[i].key == t.rows[i].key
                 && forall c :: c !in fields ==> Agree(t'.rows[i].others, t.rows[i].others, c))
            && (if forall row :: row in t.rows ==> CanonKey(row.key) != CanonKey(key)
                then id == t.nextRowid && t'.nextRowid == id + 1 && |t'.rows| == |t.rows| + 1
                     && t'.rows[|t.rows|].key == key && t'.rows[|t.rows|].others.Keys == fields.Keys
                else t'.nextRowid == t.nextRowid && |t'.rows| == |t.rows|)
            && (forall i :: 0 <= i < |t'.rows| && t'.rows[i].rowid == id ==>
                 (forall c :: c in fields ==> c in t'.rows[i].others && t'.rows[i].others[c] == fields[c])
                 && CanonKey(t'.rows[i].key) == CanonKey(key))
            && (forall i :: 0 <= i < |t.rows| && t.rows[i].rowid != id ==> t'.rows[i] == t.rows[i])
  {
    var i := FindKey(t.rows, key);
    var (t', id) := UpsertIncrement(t, key, d, fields).value;
    assert t'.rows[i].rowid == id;
    if i < |t.rows| { assert t.rows[i] in t.rows; }
  }

  // ----- whole runs -----

  function Total(ds: seq<int>): int {
    if ds == [] then 0 else ds[0] + Total(ds[1..])
  }

  /** A counter as a function of the database, and when it is one. */
  datatype Cell = Cell(value: Db -> int, countable: Db -> bool)

  /** `w` moves the counter by `d`, wrapping; by 0 if it does not touch it. */
  ghost predicate Moves(w: Work, c: Cell, d: int) {
    forall v {:trigger w(v)} :: Sane(v) && c.countable(v) ==> c.countable(w(v)) && c.value(w(v)) == Wrap(c.value(v) + d)
  }

  ghost predicate AllMove(ws: seq<Work>, ds: seq<int>, c: Cell) {
    |ws| == |ds| && forall i :: 0 <= i < |ws| ==> Proper(ws[i]) && Moves(ws[i], c, ds[i])
  }

  lemma {:induction false} SerialCounts(db: Db, ws: seq<Work>, ds: seq<int>, c: Cell)
    requires Sane(db) && c.countable(db) && AllMove(ws, ds, c) && -TWO_63 <= c.value(db) < TWO_63
    ensures c.value(Serial(db, ws)) == Wrap(c.value(db) + Total(ds))
    decreases |ws|
  {
    if ws == [] {
      WrapTwice(c.value(db), 0);
    } else {
      MoveOnce(db, ws[0], ds[0], c);
      SerialCounts(ws[0](db), ws[1..], ds[1..], c);
      SumOnce(c.value(db), c.value(ws[0](db)), ds[0], Total(ds[1..]), Total(ds));
    }
  }

  lemma MoveOnce(db: Db, w: Work, d: int, c: Cell)
    requires Sane(db) && c.countable(db) && Proper(w) && Moves(w, c, d)
    ensures Sane(w(db)) && c.countable(w(db)) && c.value(w(db)) == Wrap(c.value(db) + d)
  {
    assert Grows(db, w(db));
  }

  lemma SumOnce(c: int, moved: int, d: int, rest: int, total: int)
    requires moved == Wrap(c + d) && total == d + rest
    ensures Wrap(moved + rest) == Wrap(c + total)
  {
    WrapTwice(c + d, rest);
  }

  /**
   * A counter that only upserts move ends, whatever the interleaving, at the wrapping sum
   * of the amounts of all committed upserts.
   */
  lemma CountersSumUp(s: Sys, es: seq<Event>, ds: seq<int>, c: Cell)
    requires Fresh(s) && Runs(s, es)
    requires AllProper(es)
    requires CountsFrom(s.db, c) && AllMove(CommitLog(map[], es), ds, c)
    ensures c.value(After(s, es).db) == Wrap(c.value(s.db) + Total(ds))
  {
    FreshRunIsSerial(s, es);
    SumOfSerial(s.db, After(s, es).db, CommitLog(map[], es), ds, c);
  }

  ghost predicate CountsFrom(db: Db, c: Cell) {
    c.countable(db) && -TWO_63 <= c.value(db) < TWO_63
  }

  lemma SumOfSerial(db: Db, end: Db, ws: seq<Work>, ds: seq<int>, c: Cell)
    requires Sane(db) && CountsFrom(db, c) && AllMove(ws, ds, c) && end == Serial(db, ws)
    ensures c.value(end) == Wrap(c.value(db) + Total(ds))
  {
    SerialCounts(db, ws, ds, c);
  }

  // ----- the counter of a key in a table -----

  /** The count of a key, where `table` reads the table off the database. */
  function CountOf(table: Db -> Table, key: seq<Value>): Cell {
    Cell(v => Count(table(v), key), v => Countable(table(v)))
  }

  /** `w` acts on the table as one upsert of `key` by `d`. */
  ghost predicate Upserts(w: Work, table: Db -> Table, key: seq<Value>, d: Int64, fields: map<nat, Value>) {
    forall v {:trigger w(v)} :: Sane(v) && Countable(table(v)) ==>
      var r := UpsertIncrement(table(v), key, d, fields); r.Some? && table(w(v)) == r.value.0
  }

  /** An upsert moves the count of its own key by its amount and every other by nothing. */
  lemma UpsertsMove(w: Work, table: Db -> Table, key: seq<Value>, d: Int64, fields: map<nat, Value>, other: seq<Value>)
    requires Upserts(w, table, key, d, fields)
    ensures Moves(w, CountOf(table, other), if CanonKey(other) == CanonKey(key) then d else 0)
  {
    forall v | Sane(v) && Countable(table(v))
      ensures Countable(table(w(v)))
      ensures Count(table(w(v)), other) == Wrap(Count(table(v), other) + if CanonKey(other) == CanonKey(key) then d else 0)
    {
      UpsertAdds(table(v), key, d, fields, other);
      SameCount(table(v), key, other);
      WrapTwice(Count(table(v), other), 0);
    }
  }
}
