/** Table schemas: columns by position, the name map and the shared snapshots, and how they evolve. */
module Schema {
  import opened Bytes
  import opened Values
  import opened ValueCodec
  import opened RowLayout
  import opened RowCodec
  import opened Store

  datatype ColumnDef = ColumnDef(
    name: string, colType: Type, nullable: bool, unique: bool, fallback: Option<Value>, dropped: bool)
  datatype IndexMeta = IndexMeta(name: string, columns: seq<string>, unique: bool)

  /** How many different ids 16 bits can tell apart. */
  const MAX_COLUMNS := 0x1_0000
  const AUTO_ID := "_id"

  /** A column's id is its slot, cut to 16 bits. */
  function IdOf(slot: nat): nat {
    slot % MAX_COLUMNS
  }

  // ----- schemas as values -----

  predicate LiveAt(cols: seq<ColumnDef>, i: nat, name: string) {
    i < |cols| && cols[i].name == name && !cols[i].dropped
  }

  /** The live column of a name, the first if there are several. */
  function LiveId(cols: seq<ColumnDef>, name: string): (id: Option<nat>)
    ensures id.Some? ==> LiveAt(cols, id.value, name) && forall i: nat :: LiveAt(cols, i, name) ==> id.value <= i
    ensures id.None? ==> forall i: nat :: !LiveAt(cols, i, name)
  {
    if cols == [] then None
    else if LiveAt(cols, 0, name) then Some(0)
    else
      assert forall i: nat :: LiveAt(cols, i, name) ==> i > 0 && LiveAt(cols[1..], i - 1, name);
      match LiveId(cols[1..], name) case None => None case Some(i) => Some(i + 1)
  }

  /** No two live columns share a name. */
  ghost predicate Distinctive(cols: seq<ColumnDef>) {
    forall i: nat, j: nat, n :: LiveAt(cols, i, n) && LiveAt(cols, j, n) ==> i == j
  }

  lemma LiveIdFirst(cols: seq<ColumnDef>, i: nat)
    requires i < |cols| && !cols[i].dropped && forall j: nat :: j < i ==> !LiveAt(cols, j, cols[i].name)
    ensures LiveId(cols, cols[i].name) == Some(i)
  {
    assert LiveAt(cols, i, cols[i].name);
  }

  predicate NameOk(name: string) {
    name != "" && '\0' !in name
  }

  /** The columns by slot, dropped ones included, and the map from live names to ids. */
  datatype Columns = Columns(defs: seq<ColumnDef>, ids: map<string, nat>)

  /** Ids are 16 bits and name existing slots. */
  ghost predicate Bounded(s: Columns) {
    forall n :: n in s.ids ==> s.ids[n] < |s.defs| && s.ids[n] < MAX_COLUMNS
  }

  /** The map names exactly the live columns, so there is one of a name at most. */
  ghost predicate Sound(s: Columns) {
    forall i: nat, n :: LiveAt(s.defs, i, n) <==> n in s.ids && s.ids[n] == i
  }

  lemma SoundNames(s: Columns, name: string)
    requires Sound(s)
    ensures LiveId(s.defs, name) == if name in s.ids then Some(s.ids[name]) else None
    ensures Distinctive(s.defs)
  {
    if name in s.ids { assert LiveAt(s.defs, s.ids[name], name); }
  }

  datatype SchemaOp = AddOp(col: ColumnDef) | RenameOp(from: string, to: string) | DropOp(name: string)

  /** What the validation of an operation looks at besides the columns. */
  datatype Context = Context(rowCount: nat, indexed: set<string>)

  /** The number of columns is not looked at. */
  predicate Accepted(s: Columns, op: SchemaOp, c: Context) {
    match op
    case AddOp(col) =>
      NameOk(col.name) && col.name !in s.ids && (!col.nullable && col.fallback.None? ==> c.rowCount == 0)
    case RenameOp(from, to) => NameOk(to) && from in s.ids && to !in s.ids
    case DropOp(name) => name in s.ids && name !in c.indexed
  }

  function Added(s: Columns, col: ColumnDef): Columns {
    Columns(s.defs + [col], s.ids[col.name := IdOf(|s.defs|)])
  }

  /** Renaming and dropping go to the slot the map gives. */
  function RenamedTo(s: Columns, from: string, to: string): Columns
    requires from in s.ids && s.ids[from] < |s.defs|
  {
    var id := s.ids[from];
    Columns(s.defs[id := s.defs[id].(name := to)], (s.ids - {from})[to := id])
  }

  function Dropped(s: Columns, name: string): Columns
    requires name in s.ids && s.ids[name] < |s.defs|
  {
    var id := s.ids[name];
    Columns(s.defs[id := s.defs[id].(dropped := true)], s.ids - {name})
  }

  /** The columns after an operation; a refused one changes nothing. */
  function Evolve(s: Columns, op: SchemaOp, c: Context): (later: Columns)
    requires Bounded(s)
    ensures Bounded(later) && |s.defs| <= |later.defs|
  {
    if !Accepted(s, op, c) then s
    else
      match op
      case AddOp(col) => Added(s, col)
      case RenameOp(from, to) => RenamedTo(s, from, to)
      case DropOp(name) => Dropped(s, name)
  }

  datatype Change = Change(op: SchemaOp, c: Context)

  function EvolveAll(s: Columns, changes: seq<Change>): (later: Columns)
    requires Bounded(s)
    ensures Bounded(later) && |s.defs| <= |later.defs|
    decreases |changes|
  {
    if changes == [] then s else EvolveAll(Evolve(s, changes[0].op, changes[0].c), changes[1..])
  }

  /** No added column is marked dropped to begin with. */
  predicate BornLive(op: SchemaOp) {
    op.AddOp? ==> !op.col.dropped
  }

  lemma AddedSound(s: Columns, col: ColumnDef)
    requires Sound(s) && col.name !in s.ids
    ensures Sound(Added(s, col)) <==> !col.dropped && |s.defs| < MAX_COLUMNS
  {
    var later := Added(s, col);
    forall i: nat, n
      ensures LiveAt(later.defs, i, n) <==> LiveAt(s.defs, i, n) || (i == |s.defs| && n == col.name && !col.dropped)
    {
    }
    assert col.name in later.ids && (LiveAt(later.defs, later.ids[col.name], col.name) <==> !col.dropped && |s.defs| < MAX_COLUMNS);
  }

  lemma RenamedSound(s: Columns, from: string, to: string)
    requires Sound(s) && from in s.ids && s.ids[from] < |s.defs| && to !in s.ids
    ensures Sound(RenamedTo(s, from, to))
  {
    var later, id := RenamedTo(s, from, to), s.ids[from];
    assert forall n :: n in s.ids ==> LiveAt(s.defs, s.ids[n], n);
    forall i: nat, n ensures LiveAt(later.defs, i, n) <==> if i == id then n == to else LiveAt(s.defs, i, n) {
    }
  }

  lemma DroppedSound(s: Columns, name: string)
    requires Sound(s) && name in s.ids && s.ids[name] < |s.defs|
    ensures Sound(Dropped(s, name))
  {
    var later, id := Dropped(s, name), s.ids[name];
    assert forall n :: n in s.ids ==> LiveAt(s.defs, s.ids[n], n);
    forall i: nat, n ensures LiveAt(later.defs, i, n) <==> i != id && LiveAt(s.defs, i, n) {
    }
  }

  /** An operation keeps the map exact unless it adds a column born dropped, or one past the last id. */
  lemma EvolveKeepsSound(s: Columns, op: SchemaOp, c: Context)
    requires Bounded(s) && Sound(s)
    ensures Sound(Evolve(s, op, c)) <==>
      !(Accepted(s, op, c) && op.AddOp? && (op.col.dropped || |s.defs| >= MAX_COLUMNS))
  {
    if Accepted(s, op, c) {
      match op
      case AddOp(col) => AddedSound(s, col);
      case RenameOp(from, to) => RenamedSound(s, from, to);
      case DropOp(name) => DroppedSound(s, name);
    }
  }

  // ----- ids -----

  ghost predicate NoSharedIds(cols: seq<ColumnDef>) {
    forall i, j :: 0 <= i < j < |cols| ==> IdOf(i) != IdOf(j)
  }

  lemma IdsApart(cols: seq<ColumnDef>)
    ensures NoSharedIds(cols) <==> |cols| <= MAX_COLUMNS
  {
    if |cols| > MAX_COLUMNS { assert IdOf(0) == IdOf(MAX_COLUMNS); }
  }

  /** Slots stay: same type and default, and dropped for good once dropped. */
  ghost predicate Extends(cols: seq<ColumnDef>, later: seq<ColumnDef>) {
    |cols| <= |later| && forall i :: 0 <= i < |cols| ==>
      && later[i] == cols[i].(name := later[i].name, dropped := later[i].dropped)
      && (cols[i].dropped ==> later[i] == cols[i])
  }

  lemma EvolveExtends(s: Columns, op: SchemaOp, c: Context)
    requires Bounded(s) && Sound(s)
    ensures Extends(s.defs, Evolve(s, op, c).defs)
  {
    assert forall n :: n in s.ids ==> LiveAt(s.defs, s.ids[n], n);
  }

  /**
   * Over any run of operations no two slots share an id exactly as long as there are at most
   * 65536 of them, dropped ones included; up to there slots stay what they were and the map
   * names exactly the live columns.
   */
  lemma {:induction false} IdsNeverReused(s: Columns, changes: seq<Change>)
    requires Bounded(s) && Sound(s) && forall x :: x in changes ==> BornLive(x.op)
    ensures var later := EvolveAll(s, changes);
            && (NoSharedIds(later.defs) <==> |later.defs| <= MAX_COLUMNS)
            && (|later.defs| <= MAX_COLUMNS ==> Sound(later) && Extends(s.defs, later.defs))
    decreases |changes|
  {
    IdsApart(EvolveAll(s, changes).defs);
    if changes != [] {
      var next := Evolve(s, changes[0].op, changes[0].c);
      assert BornLive(changes[0].op);
      EvolveKeepsSound(s, changes[0].op, changes[0].c);
      EvolveExtends(s, changes[0].op, changes[0].c);
      if |EvolveAll(s, changes).defs| <= MAX_COLUMNS { IdsNeverReused(next, changes[1..]); }
    }
  }

  /** All 65536 slots taken: column "a" live in the first, the others dropped. */
  function FullTable(fallback: Option<Value>): (s: Columns)
    ensures |s.defs| == MAX_COLUMNS && s.ids == map["a" := 0]
  {
    var gone := ColumnDef("x", IntegerType, true, false, None, true);
    Columns([ColumnDef("a", IntegerType, true, false, fallback, false)] + seq(MAX_COLUMNS - 1, _ => gone), map["a" := 0])
  }

  /**
   * The input at which ids are reused: one more column takes the id of the first one. It reads
   * that column's values, and dropping it drops that column.
   */
  lemma ReusedAtLimit(fallback: Option<Value>, rowid: Word64, row: seq<Col>, c: Context)
    requires RowFits(rowid, row) && Ascend(row)
    ensures var s := FullTable(fallback);
            var b := ColumnDef("b", IntegerType, true, false, None, false);
            && Bounded(s) && Sound(s) && Accepted(s, AddOp(b), c)
            && var later := Evolve(s, AddOp(b), c);
               && later.ids["a"] == later.ids["b"] && LiveId(later.defs, "b") == Some(MAX_COLUMNS)
               && RowGet(later.defs, rowid, Encoded(rowid, row), "b") == RowGet(later.defs, rowid, Encoded(rowid, row), "a")
               && ("b" !in c.indexed ==> LiveId(Evolve(later, DropOp("b"), c).defs, "a") == None)
  {
    var s := FullTable(fallback);
    var b := ColumnDef("b", IntegerType, true, false, None, false);
    FullTableSound(fallback);
    var later := Evolve(s, AddOp(b), c);
    assert later.defs[0] == s.defs[0] && later.defs[MAX_COLUMNS] == b;
    LiveIdFirst(later.defs, 0);
    LiveIdFirst(later.defs, MAX_COLUMNS);
    if "b" !in c.indexed {
      var last := Evolve(later, DropOp("b"), c);
      assert forall i: nat :: !LiveAt(last.defs, i, "a");
    }
  }

  lemma FullTableSound(fallback: Option<Value>)
    ensures Bounded(FullTable(fallback)) && Sound(FullTable(fallback))
  {
    var s := FullTable(fallback);
    assert forall i :: 0 < i < |s.defs| ==> s.defs[i].dropped;
  }

  // ----- reading rows through a schema -----

  /** A row's value for a column id, its default where the row has none. */
  function StoredOr(stored: Option<Value>, col: ColumnDef): Option<Value> {
    if stored.Some? then stored else col.fallback
  }

  /** Reading a column of a row by name, on any bytes. */
  function RowGet(cols: seq<ColumnDef>, rowid: Word64, data: seq<Byte>, name: string): Option<Value> {
    if name == AUTO_ID then Some(Integer(Signed(rowid)))
    else
      match LiveId(cols, name)
      case None => None
      case Some(slot) => StoredOr(Stored(data, IdOf(slot)), cols[IdOf(slot)])
  }

  /** The value the bytes have for a column; none when absent or unreadable. */
  function Stored(data: seq<Byte>, id: nat): Option<Value> {
    match Extract(data, id)
    case Some(Some(v)) => Some(v)
    case _ => None
  }

  /** The columns of a row are columns of the schema it was written under. */
  ghost predicate WrittenUnder(cols: seq<ColumnDef>, row: seq<Col>) {
    forall i :: 0 <= i < |row| ==> row[i].id < |cols|
  }

  lemma GetsUnderId(cols: seq<ColumnDef>, rowid: Word64, row: seq<Col>, name: string)
    requires RowFits(rowid, row) && Ascend(row) && name != AUTO_ID && LiveId(cols, name).Some?
    ensures var id := IdOf(LiveId(cols, name).value);
            RowGet(cols, rowid, Encoded(rowid, row), name) == StoredOr(Lookup(row, id), cols[id])
  {
    ExtractAgrees(rowid, row, IdOf(LiveId(cols, name).value));
  }

  lemma SmallId(slot: nat)
    requires slot < MAX_COLUMNS
    ensures IdOf(slot) == slot
  {
  }

  lemma GetsUnderSlot(cols: seq<ColumnDef>, rowid: Word64, row: seq<Col>, name: string, slot: nat)
    requires RowFits(rowid, row) && Ascend(row) && name != AUTO_ID && LiveId(cols, name) == Some(slot) && slot < MAX_COLUMNS
    ensures RowGet(cols, rowid, Encoded(rowid, row), name) == StoredOr(Lookup(row, slot), cols[slot])
  {
    SmallId(slot);
    GetsUnderId(cols, rowid, row, name);
  }

  /** A row that gives this live name what is under the column's own slot. */
  ghost predicate OwnSlotRead(cols: seq<ColumnDef>, name: string, slot: nat, rowid: Word64, row: seq<Col>)
    requires slot < |cols|
  {
    RowFits(rowid, row) && Ascend(row) ==>
      RowGet(cols, rowid, Encoded(rowid, row), name) == StoredOr(Lookup(row, slot), cols[slot])
  }

  /** All rows read a column from its own slot exactly when the slot is below 65536. */
  lemma ReadsOwnSlotExactly(cols: seq<ColumnDef>, name: string)
    requires name != AUTO_ID && LiveId(cols, name).Some?
    ensures var slot := LiveId(cols, name).value;
            (forall rowid: Word64, row :: OwnSlotRead(cols, name, slot, rowid, row)) <==> slot < MAX_COLUMNS
  {
    var slot := LiveId(cols, name).value;
    if slot < MAX_COLUMNS {
      forall rowid: Word64, row ensures OwnSlotRead(cols, name, slot, rowid, row) {
        OwnSlotBelow(cols, name, slot, rowid, row);
      }
    } else {
      var row := OwnSlotMissed(cols, name, slot);
    }
  }

  lemma OwnSlotBelow(cols: seq<ColumnDef>, name: string, slot: nat, rowid: Word64, row: seq<Col>)
    requires name != AUTO_ID && LiveId(cols, name) == Some(slot) && slot < MAX_COLUMNS
    ensures OwnSlotRead(cols, name, slot, rowid, row)
  {
    if RowFits(rowid, row) && Ascend(row) { GetsUnderSlot(cols, rowid, row, name, slot); }
  }

  lemma OwnSlotMissed(cols: seq<ColumnDef>, name: string, slot: nat) returns (row: seq<Col>)
    requires name != AUTO_ID && LiveId(cols, name) == Some(slot) && slot >= MAX_COLUMNS
    ensures !OwnSlotRead(cols, name, slot, 0, row)
  {
    var v := Differing(cols[slot].fallback);
    row := OneColumnRow(IdOf(slot), v);
    GetsUnderId(cols, 0, row, name);
  }

  /** An integer other than the given value. */
  function Differing(v: Option<Value>): (d: Value)
    ensures Some(d) != v && d.Integer?
  {
    if v == Some(Integer(0)) then Integer(1) else Integer(0)
  }

  /** A row with one column. */
  lemma OneColumnRow(id: nat, v: Value) returns (row: seq<Col>)
    requires id < MAX_COLUMNS && v.Integer?
    ensures row == [Col(id, v)] && RowFits(0, row) && Ascend(row)
    ensures forall k :: Lookup(row, k) == if k == id then Some(v) else None
  {
    PowValues();
    row := [Col(id, v)];
    forall k ensures Lookup(row, k) == if k == id then Some(v) else None { assert row[1..] == []; }
  }

  /**
   * A row written under an older schema, read by a live name after any run of changes that
   * stays within 65536 slots: the value stored under the column's id if the column existed
   * then, else only the default.
   */
  lemma OldRowsReadById(s: Columns, changes: seq<Change>, rowid: Word64, row: seq<Col>, name: string)
    requires Bounded(s) && Sound(s) && forall x :: x in changes ==> BornLive(x.op)
    requires |EvolveAll(s, changes).defs| <= MAX_COLUMNS
    requires RowFits(rowid, row) && Ascend(row) && WrittenUnder(s.defs, row) && name != AUTO_ID
    ensures var later := EvolveAll(s, changes).defs; var got := RowGet(later, rowid, Encoded(rowid, row), name);
            match LiveId(later, name)
            case None => got == None
            case Some(id) =>
              if id < |s.defs| then !s.defs[id].dropped && got == StoredOr(Lookup(row, id), s.defs[id])
              else got == later[id].fallback
  {
    var later := EvolveAll(s, changes).defs;
    IdsNeverReused(s, changes);
    if LiveId(later, name).Some? { OldRowReads(s.defs, later, rowid, row, name); }
  }

  lemma OldRowReads(cols: seq<ColumnDef>, later: seq<ColumnDef>, rowid: Word64, row: seq<Col>, name: string)
    requires Extends(cols, later) && |later| <= MAX_COLUMNS && LiveId(later, name).Some?
    requires RowFits(rowid, row) && Ascend(row) && WrittenUnder(cols, row) && name != AUTO_ID
    ensures var id := LiveId(later, name).value;
            RowGet(later, rowid, Encoded(rowid, row), name) ==
            if id < |cols| then StoredOr(Lookup(row, id), cols[id]) else later[id].fallback
    ensures LiveId(later, name).value < |cols| ==> !cols[LiveId(later, name).value].dropped
  {
    GetsUnderSlot(later, rowid, row, name, LiveId(later, name).value);
    if LiveId(later, name).value >= |cols| { LookupNone(row, LiveId(later, name).value); }
  }

  /** A row written under the older schema `cols`, read by this name, shows only this default. */
  ghost predicate ShowsOnly(cols: seq<ColumnDef>, later: seq<ColumnDef>, name: string, fallback: Option<Value>, rowid: Word64, row: seq<Col>) {
    RowFits(rowid, row) && Ascend(row) && WrittenUnder(cols, row) ==>
      RowGet(later, rowid, Encoded(rowid, row), name) == fallback
  }

  /**
   * Dropping a column and adding one of the same name: all older rows show only the new
   * default, exactly when the table had fewer than 65536 slots.
   */
  lemma ReaddNeverRevives(s: Columns, name: string, c: Context, again: ColumnDef, c': Context)
    requires Bounded(s) && Sound(s) && name != AUTO_ID
    requires Accepted(s, DropOp(name), c) && again.name == name && !again.dropped
    requires Accepted(Evolve(s, DropOp(name), c), AddOp(again), c')
    ensures var later := Evolve(Evolve(s, DropOp(name), c), AddOp(again), c').defs;
            (forall rowid: Word64, row :: ShowsOnly(s.defs, later, name, again.fallback, rowid, row)) <==> |s.defs| < MAX_COLUMNS
  {
    var mid := Evolve(s, DropOp(name), c);
    var later := Evolve(mid, AddOp(again), c').defs;
    DroppedSound(s, name);
    ReaddedLast(mid, again);
    RevivesAtLimit(s.defs, later, name, again.fallback);
  }

  lemma ReaddedLast(s: Columns, col: ColumnDef)
    requires Sound(s) && col.name !in s.ids && !col.dropped
    ensures LiveId(Added(s, col).defs, col.name) == Some(|s.defs|) && Added(s, col).defs[|s.defs|] == col
  {
    var later := Added(s, col).defs;
    forall j: nat | j < |s.defs| ensures !LiveAt(later, j, col.name) { assert LiveAt(later, j, col.name) ==> LiveAt(s.defs, j, col.name); }
    LiveIdFirst(later, |s.defs|);
  }

  lemma RevivesAtLimit(cols: seq<ColumnDef>, later: seq<ColumnDef>, name: string, fallback: Option<Value>)
    requires name != AUTO_ID && |later| == |cols| + 1 && LiveId(later, name) == Some(|cols|) && later[|cols|].fallback == fallback
    ensures (forall rowid: Word64, row :: ShowsOnly(cols, later, name, fallback, rowid, row)) <==> |cols| < MAX_COLUMNS
  {
    if |cols| < MAX_COLUMNS {
      forall rowid: Word64, row ensures ShowsOnly(cols, later, name, fallback, rowid, row) {
        NewSlotShows(cols, later, name, fallback, rowid, row);
      }
    } else {
      var row := OldValueShows(cols, later, name, fallback);
    }
  }

  lemma NewSlotShows(cols: seq<ColumnDef>, later: seq<ColumnDef>, name: string, fallback: Option<Value>, rowid: Word64, row: seq<Col>)
    requires name != AUTO_ID && |later| == |cols| + 1 <= MAX_COLUMNS
    requires LiveId(later, name) == Some(|cols|) && later[|cols|].fallback == fallback
    ensures ShowsOnly(cols, later, name, fallback, rowid, row)
  {
    if RowFits(rowid, row) && Ascend(row) && WrittenUnder(cols, row) {
      GetsUnderSlot(later, rowid, row, name, |cols|);
      LookupNone(row, |cols|);
    }
  }

  lemma OldValueShows(cols: seq<ColumnDef>, later: seq<ColumnDef>, name: string, fallback: Option<Value>) returns (row: seq<Col>)
    requires name != AUTO_ID && |later| == |cols| + 1 > MAX_COLUMNS && LiveId(later, name) == Some(|cols|)
    ensures !ShowsOnly(cols, later, name, fallback, 0, row)
  {
    var v := Differing(fallback);
    row := OneColumnRow(IdOf(|cols|), v);
    GetsUnderId(later, 0, row, name);
  }

  // ----- finding a column's type by name alone -----

  /** The first column of a name, dropped or not. */
  function FirstNamed(cols: seq<ColumnDef>, name: string): (id: Option<nat>)
    ensures id.Some? ==> id.value < |cols| && cols[id.value].name == name
    ensures id.Some? ==> forall i :: 0 <= i < id.value ==> cols[i].name != name
    ensures id.None? ==> forall i :: 0 <= i < |cols| ==> cols[i].name != name
  {
    if cols == [] then None
    else if cols[0].name == name then Some(0)
    else match FirstNamed(cols[1..], name) case None => None case Some(i) => Some(i + 1)
  }

  lemma FirstNamedUnique(cols: seq<ColumnDef>, i: nat)
    requires i < |cols| && forall j :: 0 <= j < i ==> cols[j].name != cols[i].name
    ensures FirstNamed(cols, cols[i].name) == Some(i)
  {
    var k := FirstNamed(cols, cols[i].name);
    assert k.Some?;
  }

  /**
   * The indexes resolve a column's id through the name map but its type as that of the first
   * column of the name, dropped or not: the type is right when those two columns have the same.
   */
  ghost predicate TypeRight(s: Columns, name: string) {
    && name in s.ids && s.ids[name] < |s.defs| && FirstNamed(s.defs, name).Some?
    && s.defs[FirstNamed(s.defs, name).value].colType == s.defs[s.ids[name]].colType
  }

  /** The name an operation gives to a column, the slot of that column and its type. */
  function Named(op: SchemaOp): string
    requires !op.DropOp?
  {
    if op.AddOp? then op.col.name else op.to
  }

  ghost function NamedSlot(s: Columns, op: SchemaOp): nat
    requires !op.DropOp? && (op.RenameOp? ==> op.from in s.ids)
  {
    if op.AddOp? then |s.defs| else s.ids[op.from]
  }

  ghost function NamedType(s: Columns, op: SchemaOp): Type
    requires Bounded(s) && !op.DropOp? && (op.RenameOp? ==> op.from in s.ids)
  {
    if op.AddOp? then op.col.colType else s.defs[s.ids[op.from]].colType
  }

  /**
   * An addition or a rename leaves the type found under the name right exactly when no earlier
   * slot had the name, or the first that had it has the same type.
   */
  lemma IndexTypeAfterNaming(s: Columns, op: SchemaOp, c: Context)
    requires Bounded(s) && Sound(s) && !op.DropOp? && Accepted(s, op, c) && BornLive(op)
    requires op.AddOp? ==> |s.defs| < MAX_COLUMNS
    ensures var first, slot := FirstNamed(s.defs, Named(op)), NamedSlot(s, op);
            TypeRight(Evolve(s, op, c), Named(op)) <==>
            (first.None? || first.value > slot || s.defs[first.value].colType == NamedType(s, op))
  {
    var name, slot, later := Named(op), NamedSlot(s, op), Evolve(s, op, c);
    var first := FirstNamed(s.defs, name);
    EvolveKeepsSound(s, op, c);
    if op.RenameOp? { assert LiveAt(s.defs, slot, op.from); }
    assert later.defs[slot].name == name && later.ids[name] == slot;
    FirstNamedUnique(later.defs, if first.Some? && first.value < slot then first.value else slot);
  }

  /** It leaves alone the types found under other names that stay live, and so does a drop. */
  lemma IndexTypeElsewhere(s: Columns, op: SchemaOp, c: Context, name: string)
    requires Bounded(s) && Sound(s) && name in s.ids && name in Evolve(s, op, c).ids
    requires op.DropOp? || !Accepted(s, op, c) || name != Named(op)
    ensures TypeRight(Evolve(s, op, c), name) <==> TypeRight(s, name)
  {
    var later := Evolve(s, op, c);
    assert LiveAt(s.defs, s.ids[name], name);
    var first := FirstNamed(s.defs, name).value;
    if op.RenameOp? && Accepted(s, op, c) { assert LiveAt(s.defs, s.ids[op.from], op.from); }
    assert later.defs[first].name == name;
    FirstNamedUnique(later.defs, first);
  }

  /** After a drop and a re-add of the name: right exactly when the first column of the name has the new type. */
  lemma IndexTypeAfterReadd(s: Columns, name: string, c: Context, again: ColumnDef, c': Context)
    requires Bounded(s) && Sound(s) && |s.defs| < MAX_COLUMNS
    requires Accepted(s, DropOp(name), c) && again.name == name && !again.dropped
    requires Accepted(Evolve(s, DropOp(name), c), AddOp(again), c')
    ensures FirstNamed(s.defs, name).Some?
    ensures TypeRight(Evolve(Evolve(s, DropOp(name), c), AddOp(again), c'), name) <==>
            s.defs[FirstNamed(s.defs, name).value].colType == again.colType
  {
    var mid := Evolve(s, DropOp(name), c);
    EvolveKeepsSound(s, DropOp(name), c);
    assert LiveAt(s.defs, s.ids[name], name);
    IndexTypeAfterNaming(mid, AddOp(again), c');
    FirstNamedUnique(mid.defs, FirstNamed(s.defs, name).value);
  }

  function Plain(name: string, t: Type): ColumnDef {
    ColumnDef(name, t, true, false, None, false)
  }

  /** Two inputs with a wrong type: the name came back with the type it last had, and the name came by a rename. */
  lemma IndexTypeWrong(c: Context)
    requires c.indexed == {}
    ensures var twice := EvolveAll(Columns([Plain("x", IntegerType)], map["x" := 0]),
              [Change(DropOp("x"), c), Change(AddOp(Plain("x", TextType)), c), Change(DropOp("x"), c), Change(AddOp(Plain("x", TextType)), c)]);
            "x" in twice.ids && !TypeRight(twice, "x")
    ensures var onto := EvolveAll(Columns([Plain("x", IntegerType), Plain("y", TextType)], map["x" := 0, "y" := 1]),
              [Change(DropOp("x"), c), Change(RenameOp("y", "x"), c)]);
            "x" in onto.ids && !TypeRight(onto, "x")
  {
    var s0 := Columns([Plain("x", IntegerType)], map["x" := 0]);
    var d, a := Change(DropOp("x"), c), Change(AddOp(Plain("x", TextType)), c);
    var s1 := Evolve(s0, d.op, c);
    var s2 := Evolve(s1, a.op, c);
    var s3 := Evolve(s2, d.op, c);
    var s4 := Evolve(s3, a.op, c);
    Unfolded4(s0, d, a, d, a);
    FirstNamedUnique(s4.defs, 0);
    var t0 := Columns([Plain("x", IntegerType), Plain("y", TextType)], map["x" := 0, "y" := 1]);
    var r := Change(RenameOp("y", "x"), c);
    var t2 := Evolve(Evolve(t0, d.op, c), r.op, c);
    Unfolded2(t0, d, r);
    FirstNamedUnique(t2.defs, 0);
  }

  lemma Unfolded2(s: Columns, a: Change, b: Change)
    requires Bounded(s)
    ensures EvolveAll(s, [a, b]) == Evolve(Evolve(s, a.op, a.c), b.op, b.c)
  {
    assert [a, b][1..] == [b] && [b][1..] == [];
    var mid := Evolve(s, a.op, a.c);
    assert EvolveAll(mid, [b]) == EvolveAll(Evolve(mid, b.op, b.c), []);
  }

  lemma Unfolded4(s: Columns, a: Change, b: Change, d: Change, e: Change)
    requires Bounded(s)
    ensures EvolveAll(s, [a, b, d, e]) == Evolve(Evolve(Evolve(Evolve(s, a.op, a.c), b.op, b.c), d.op, d.c), e.op, e.c)
  {
    assert [a, b, d, e][1..] == [b, d, e] && [b, d, e][1..] == [d, e];
    Unfolded2(Evolve(Evolve(s, a.op, a.c), b.op, b.c), d, e);
  }

  // ----- the table object -----

  function Names(cols: seq<ColumnDef>): (ns: seq<string>)
    ensures |ns| == |cols| && forall i :: 0 <= i < |cols| ==> ns[i] == cols[i].name
  {
    seq(|cols|, i requires 0 <= i < |cols| => cols[i].name)
  }

  /** The last live column of a name, the one a new table's map keeps. */
  function LastLive(cols: seq<ColumnDef>, name: string): (id: Option<nat>)
    ensures id.Some? ==> LiveAt(cols, id.value, name) && forall i: nat :: LiveAt(cols, i, name) ==> i <= id.value
    ensures id.None? ==> forall i: nat :: !LiveAt(cols, i, name)
  {
    if cols == [] then None
    else
      var n := |cols| - 1;
      assert forall i: nat :: i < n ==> (LiveAt(cols, i, name) <==> LiveAt(cols[..n], i, name));
      if LiveAt(cols, n, name) then Some(n) else LastLive(cols[..n], name)
  }

  /** A new table's map and its rows agree on a name exactly when only one live column has it. */
  lemma MapAndGetAgree(cols: seq<ColumnDef>, name: string)
    requires |cols| <= MAX_COLUMNS && LiveId(cols, name).Some?
    ensures IdOf(LastLive(cols, name).value) == IdOf(LiveId(cols, name).value) <==>
      forall i: nat, j: nat :: LiveAt(cols, i, name) && LiveAt(cols, j, name) ==> i == j
  {
    var first, last := LiveId(cols, name).value, LastLive(cols, name).value;
    assert LiveAt(cols, first, name) && LiveAt(cols, last, name) && first <= last < MAX_COLUMNS;
    SmallId(first);
    SmallId(last);
  }

  /** The map of a new table is exact exactly when no two live columns share a name. */
  lemma NewMapExact(cols: seq<ColumnDef>, m: map<string, nat>)
    requires |cols| <= MAX_COLUMNS && NewMap(m, cols)
    ensures Sound(Columns(cols, m)) <==> Distinctive(cols)
  {
    if Sound(Columns(cols, m)) { SoundNames(Columns(cols, m), ""); }
    if Distinctive(cols) {
      forall i: nat, n ensures LiveAt(cols, i, n) <==> n in m && m[n] == i {
        var last := LastLive(cols, n);
        if last.Some? { SmallId(last.value); }
      }
    }
  }

  /** What the constructor builds: for every live name the id of its last live column. */
  ghost predicate NewMap(m: map<string, nat>, cols: seq<ColumnDef>) {
    forall n :: if n in m then LastLive(cols, n).Some? && m[n] == IdOf(LastLive(cols, n).value) else LastLive(cols, n) == None
  }

  lemma NewMapStep(m: map<string, nat>, cols: seq<ColumnDef>, i: nat)
    requires i < |cols| && NewMap(m, cols[..i])
    ensures NewMap(if cols[i].dropped then m else m[cols[i].name := IdOf(i)], cols[..i + 1])
  {
    var m' := if cols[i].dropped then m else m[cols[i].name := IdOf(i)];
    forall n
      ensures LastLive(cols[..i + 1], n) == if LiveAt(cols, i, n) then Some(i) else LastLive(cols[..i], n)
    {
      assert cols[..i + 1][..i] == cols[..i];
    }
  }

  class TableMeta {
    var columns: seq<ColumnDef>
    var colNameToId: map<string, nat>
    var colNames: seq<string>
    var colDefs: seq<ColumnDef>
    var rowCount: nat
    var indexes: seq<IndexMeta>

    ghost function Cols(): Columns
      reads this
    {
      Columns(columns, colNameToId)
    }

    /** Names and definitions agree with the columns position by position. */
    ghost predicate InStep()
      reads this
    {
      colNames == Names(columns) && colDefs == columns && Bounded(Cols())
    }

    /** And the map names exactly the live columns. */
    ghost predicate Aligned()
      reads this
    {
      InStep() && Sound(Cols())
    }

    ghost function Ctx(): Context
      reads this
    {
      Context(rowCount, set i, j | 0 <= i < |indexes| && 0 <= j < |indexes[i].columns| :: indexes[i].columns[j])
    }

    /** Any columns are accepted. With at most 65536 the table is aligned exactly when live names are distinct. */
    constructor (cols: seq<ColumnDef>)
      ensures InStep() && columns == cols && NewMap(colNameToId, cols) && rowCount == 0 && indexes == []
      ensures |cols| <= MAX_COLUMNS ==> (Aligned() <==> Distinctive(cols))
    {
      var m: map<string, nat> := map[];
      for i := 0 to |cols|
        invariant NewMap(m, cols[..i]) && forall n :: n in m ==> m[n] < i && m[n] < MAX_COLUMNS
      {
        NewMapStep(m, cols, i);
        if !cols[i].dropped { m := m[cols[i].name := IdOf(i)]; }
      }
      assert cols[..|cols|] == cols;
      columns, colNameToId, colNames, colDefs, rowCount, indexes := cols, m, Names(cols), cols, 0, [];
      if |cols| <= MAX_COLUMNS { NewMapExact(cols, m); }
    }

    /**
     * Appends a column, whatever its name and however many there are. The map stays exact
     * exactly when the column is not born dropped and there is an id left for it.
     */
    method AddColumn(col: ColumnDef)
      requires InStep()
      modifies this
      ensures InStep() && Cols() == Added(old(Cols()), col) && rowCount == old(rowCount) && indexes == old(indexes)
      ensures old(Aligned()) && LiveId(old(columns), col.name).None? ==>
        (Aligned() <==> !col.dropped && |old(columns)| < MAX_COLUMNS)
    {
      var colId := IdOf(|columns|);
      if Aligned() && LiveId(columns, col.name).None? {
        SoundNames(Cols(), col.name);
        AddedSound(Cols(), col);
      }
      colNameToId := colNameToId[col.name := colId];
      colNames := colNames + [col.name];
      columns := columns + [col];
      colDefs := columns;
    }

    method DropColumn(name: string) returns (ok: bool)
      requires InStep()
      modifies this
      ensures InStep() && ok == (name in old(colNameToId)) && rowCount == old(rowCount) && indexes == old(indexes)
      ensures Cols() == if ok then Dropped(old(Cols()), name) else old(Cols())
      ensures old(Aligned()) ==> Aligned()
    {
      if name !in colNameToId { return false; }
      var colId := colNameToId[name];
      if Aligned() { DroppedSound(Cols(), name); }
      colNameToId := colNameToId - {name};
      columns := columns[colId := columns[colId].(dropped := true)];
      colDefs := columns;
      return true;
    }

    method RenameColumn(from: string, to: string) returns (r: Option<nat>)
      requires InStep()
      modifies this
      ensures InStep() && rowCount == old(rowCount) && indexes == old(indexes)
      ensures r == if from in old(colNameToId) then Some(old(colNameToId)[from]) else None
      ensures Cols() == if r.Some? then RenamedTo(old(Cols()), from, to) else old(Cols())
      ensures old(Aligned()) && LiveId(old(columns), to).None? ==> Aligned()
    {
      if from !in colNameToId { return None; }
      var colId := colNameToId[from];
      if Aligned() && LiveId(columns, to).None? {
        SoundNames(Cols(), to);
        RenamedSound(Cols(), from, to);
      }
      colNameToId := (colNameToId - {from})[to := colId];
      columns := columns[colId := columns[colId].(name := to)];
      colNames := colNames[colId := to];
      colDefs := columns;
      return Some(colId);
    }

    /** The validated operations, as the database offers them. */
    method TryAdd(col: ColumnDef) returns (ok: bool)
      requires InStep()
      modifies this
      ensures InStep() && ok == Accepted(old(Cols()), AddOp(col), old(Ctx()))
      ensures ok <==> && |col.name| > 0 && '\0' !in col.name && col.name !in old(colNameToId)
                      && (col.nullable || col.fallback.Some? || old(rowCount) == 0)
      ensures columns == if ok then old(columns) + [col] else old(columns)
      ensures colNameToId == if ok then old(colNameToId)[col.name := |old(columns)| % 65536] else old(colNameToId)
      ensures Cols() == Evolve(old(Cols()), AddOp(col), old(Ctx()))
    {
      if col.name == "" || '\0' in col.name || col.name in colNameToId { return false; }
      if !col.nullable && col.fallback.None? && rowCount > 0 { return false; }
      AddColumn(col);
      return true;
    }

    method TryDrop(name: string) returns (ok: bool)
      requires InStep()
      modifies this
      ensures InStep() && ok == Accepted(old(Cols()), DropOp(name), old(Ctx()))
      ensures ok <==> name in old(colNameToId) && forall k :: 0 <= k < |old(indexes)| ==> name !in old(indexes)[k].columns
      ensures old(Aligned()) ==> Aligned() && (ok ==> forall i: nat :: !LiveAt(columns, i, name))
      ensures Cols() == Evolve(old(Cols()), DropOp(name), old(Ctx()))
    {
      if name !in colNameToId { return false; }
      for i := 0 to |indexes|
        invariant forall k, j :: 0 <= k < i && 0 <= j < |indexes[k].columns| ==> indexes[k].columns[j] != name
      {
        if name in indexes[i].columns { return false; }
      }
      ok := DropColumn(name);
    }

    method TryRename(from: string, to: string) returns (ok: bool)
      requires InStep()
      modifies this
      ensures InStep() && ok == Accepted(old(Cols()), RenameOp(from, to), old(Ctx()))
      ensures ok <==> |to| > 0 && '\0' !in to && from in old(colNameToId) && to !in old(colNameToId)
      ensures old(Aligned()) ==> Aligned() && (ok ==> LiveAt(columns, old(colNameToId)[from], to) && forall i: nat :: !LiveAt(columns, i, from))
      ensures Cols() == Evolve(old(Cols()), RenameOp(from, to), old(Ctx()))
      ensures indexes == if ok then IndexesRenamed(old(indexes), from, to) else old(indexes)
    {
      if to == "" || '\0' in to || from !in colNameToId || to in colNameToId { return false; }
      var r := RenameColumn(from, to);
      var done: seq<IndexMeta> := [];
      for i := 0 to |indexes|
        invariant InStep() && indexes == old(indexes) && Cols() == Evolve(old(Cols()), RenameOp(from, to), old(Ctx()))
        invariant done == IndexesRenamed(indexes, from, to)[..i]
      {
        done := done + [indexes[i].(columns := Renamed(indexes[i].columns, from, to))];
      }
      indexes := done;
      return true;
    }

    /** Reads a column of a row by name, going over the positional names and definitions. */
    method Get(rowid: Word64, data: seq<Byte>, column: string) returns (r: Option<Value>)
      requires InStep()
      ensures r == RowGet(columns, rowid, data, column)
      ensures column == "_id" ==> r == Some(Integer(if rowid < 0x8000_0000_0000_0000 then rowid else rowid - 0x1_0000_0000_0000_0000))
      ensures column != "_id" && (forall i: nat :: !LiveAt(columns, i, column)) ==> r == None
    {
      if column == AUTO_ID { return Some(Integer(Signed(rowid))); }
      var found: Option<nat> := None;
      for i := 0 to |colNames|
        invariant found == None
        invariant forall j :: 0 <= j < i ==> colNames[j] != column || colDefs[j].dropped
      {
        if colNames[i] == column && !colDefs[i].dropped {
          LiveIdFirst(columns, i);
          found := Some(IdOf(i));
          break;
        }
      }
      if found.None? { return None; }
      var stored := ExtractColumn(data, found.value);
      if stored.Some? && stored.value.Some? { return stored.value; }
      return colDefs[found.value].fallback;
    }
  }

  function Renamed(names: seq<string>, from: string, to: string): (s: seq<string>)
    ensures |s| == |names| && forall i :: 0 <= i < |s| ==> s[i] == if names[i] == from then to else names[i]
  {
    seq(|names|, i requires 0 <= i < |names| => if names[i] == from then to else names[i])
  }

  function IndexesRenamed(indexes: seq<IndexMeta>, from: string, to: string): (s: seq<IndexMeta>)
    ensures |s| == |indexes|
    ensures forall i :: 0 <= i < |s| ==> s[i] == indexes[i].(columns := Renamed(indexes[i].columns, from, to))
  {
    seq(|indexes|, i requires 0 <= i < |indexes| => indexes[i].(columns := Renamed(indexes[i].columns, from, to)))
  }
}
