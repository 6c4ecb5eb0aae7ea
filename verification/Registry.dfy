/** The table registry: printed to bytes, parsed back, kept inline on the system page or spilled to a chain. */
module Registry {
  import opened Seqs
  import opened Bytes
  import opened Overflow
  import opened Values
  import opened ValueCodec
  import opened Store

  /** Names are UTF-8 bytes. */
  datatype ColumnRec = ColumnRec(
    name: seq<Byte>, colType: Type, nullable: bool, unique: bool, dropped: bool, fallback: Option<Value>)
  datatype IndexRec = IndexRec(name: seq<Byte>, columns: seq<seq<Byte>>, unique: bool, root: nat)
  datatype TableRec = TableRec(
    tableId: nat, root: nat, rowCount: nat, nextRowid: nat, name: seq<Byte>,
    columns: seq<ColumnRec>, indexes: seq<IndexRec>, encrypted: bool)
  datatype Tables = Tables(tables: seq<TableRec>, nextTableId: nat)

  const SYSTEM_MAGIC := 0xB00D_5150
  const U16 := 0x1_0000

  /** What a parser read and what is left, or that the bytes are not what they should be. */
  datatype Parsed<T> = Parsed(value: T, rest: seq<Byte>) | Bad

  // ----- printing -----

  function PrintText(s: seq<Byte>): seq<Byte> { Le(|s|, 2) + s }
  function PrintFlag(b: bool): seq<Byte> { [if b then 1 else 0] }

  function PrintMany<T>(show: T -> seq<Byte>, xs: seq<T>): seq<Byte> {
    if xs == [] then [] else show(xs[0]) + PrintMany(show, xs[1..])
  }

  function PrintList<T>(show: T -> seq<Byte>, xs: seq<T>): seq<Byte> {
    Le(|xs|, 2) + PrintMany(show, xs)
  }

  function TypeTag(t: Type): Byte {
    match t case TextType => 1 case IntegerType => 2 case RealType => 3 case BlobType => 4 case BooleanType => 5
  }

  function PrintDefault(v: Option<Value>): seq<Byte> {
    match v case None => PrintFlag(false) case Some(x) => PrintFlag(true) + PrintText(EncodeValue(x))
  }

  function PrintColumn(c: ColumnRec): seq<Byte> {
    PrintText(c.name) + ([TypeTag(c.colType)] + (PrintFlag(c.nullable) + (PrintFlag(c.unique) + (PrintFlag(c.dropped) + PrintDefault(c.fallback)))))
  }

  function PrintIndex(x: IndexRec): seq<Byte> {
    PrintText(x.name) + (PrintList(PrintText, x.columns) + (PrintFlag(x.unique) + Le(x.root, 4)))
  }

  function PrintTable(t: TableRec): seq<Byte> {
    Le(t.tableId, 4) + (Le(t.root, 4) + (Le(t.rowCount, 8) + (Le(t.nextRowid, 8)
      + (PrintText(t.name) + (PrintList(PrintColumn, t.columns) + (PrintList(PrintIndex, t.indexes) + PrintFlag(t.encrypted)))))))
  }

  function PrintTables(r: Tables): seq<Byte> {
    Le(SYSTEM_MAGIC, 4) + (Le(r.nextTableId, 4) + PrintList(PrintTable, r.tables))
  }

  // ----- parsing, on any bytes -----

  function ParseInt(k: nat, bytes: seq<Byte>): Parsed<nat> {
    if |bytes| < k then Bad else Parsed(FromLe(bytes[..k]), bytes[k..])
  }

  function ParseFlag(bytes: seq<Byte>): Parsed<bool> {
    if bytes == [] then Bad else Parsed(bytes[0] != 0, bytes[1..])
  }

  /** The last table's flag may be missing. */
  function ParseLastFlag(bytes: seq<Byte>): Parsed<bool> {
    if bytes == [] then Parsed(false, []) else ParseFlag(bytes)
  }

  function ParseBlock(bytes: seq<Byte>): Parsed<seq<Byte>> {
    match ParseInt(2, bytes)
    case Bad => Bad
    case Parsed(n, rest) => if |rest| < n then Bad else Parsed(rest[..n], rest[n..])
  }

  function ParseText(bytes: seq<Byte>): Parsed<seq<Byte>> {
    match ParseBlock(bytes)
    case Bad => Bad
    case Parsed(s, rest) => if Utf8(s) then Parsed(s, rest) else Bad
  }

  function ParseMany<T>(parse: seq<Byte> -> Parsed<T>, n: nat, bytes: seq<Byte>): Parsed<seq<T>> {
    if n == 0 then Parsed([], bytes)
    else
      match parse(bytes)
      case Bad => Bad
      case Parsed(x, rest) =>
        match ParseMany(parse, n - 1, rest)
        case Bad => Bad
        case Parsed(xs, end) => Parsed([x] + xs, end)
  }

  function ParseList<T>(parse: seq<Byte> -> Parsed<T>, bytes: seq<Byte>): Parsed<seq<T>> {
    match ParseInt(2, bytes) case Bad => Bad case Parsed(n, rest) => ParseMany(parse, n, rest)
  }

  function ParseType(bytes: seq<Byte>): Parsed<Type> {
    if bytes == [] then Bad
    else if bytes[0] == 1 then Parsed(TextType, bytes[1..])
    else if bytes[0] == 2 then Parsed(IntegerType, bytes[1..])
    else if bytes[0] == 3 then Parsed(RealType, bytes[1..])
    else if bytes[0] == 4 then Parsed(BlobType, bytes[1..])
    else if bytes[0] == 5 then Parsed(BooleanType, bytes[1..])
    else Bad
  }

  function ParseDefault(bytes: seq<Byte>): Parsed<Option<Value>> {
    match ParseFlag(bytes)
    case Bad => Bad
    case Parsed(false, rest) => Parsed(None, rest)
    case Parsed(true, rest) =>
      match ParseBlock(rest)
      case Bad => Bad
      case Parsed(block, end) => match DecodeValue(block) case None => Bad case Some(d) => Parsed(Some(d.v), end)
  }

  function ParseColumn(bytes: seq<Byte>): Parsed<ColumnRec> {
    match ParseText(bytes) case Bad => Bad case Parsed(name, r1) =>
    match ParseType(r1) case Bad => Bad case Parsed(t, r2) =>
    match ParseFlag(r2) case Bad => Bad case Parsed(nullable, r3) =>
    match ParseFlag(r3) case Bad => Bad case Parsed(unique, r4) =>
    match ParseFlag(r4) case Bad => Bad case Parsed(dropped, r5) =>
    match ParseDefault(r5) case Bad => Bad case Parsed(v, r6) => Parsed(ColumnRec(name, t, nullable, unique, dropped, v), r6)
  }

  function ParseIndex(bytes: seq<Byte>): Parsed<IndexRec> {
    match ParseText(bytes) case Bad => Bad case Parsed(name, r1) =>
    match ParseList(ParseText, r1) case Bad => Bad case Parsed(columns, r2) =>
    match ParseFlag(r2) case Bad => Bad case Parsed(unique, r3) =>
    match ParseInt(4, r3) case Bad => Bad case Parsed(root, r4) => Parsed(IndexRec(name, columns, unique, root), r4)
  }

  function ParseTable(bytes: seq<Byte>): Parsed<TableRec> {
    match ParseInt(4, bytes) case Bad => Bad case Parsed(id, r1) =>
    match ParseInt(4, r1) case Bad => Bad case Parsed(root, r2) =>
    match ParseInt(8, r2) case Bad => Bad case Parsed(count, r3) =>
    match ParseInt(8, r3) case Bad => Bad case Parsed(next, r4) =>
    match ParseText(r4) case Bad => Bad case Parsed(name, r5) =>
    match ParseList(ParseColumn, r5) case Bad => Bad case Parsed(columns, r6) =>
    match ParseList(ParseIndex, r6) case Bad => Bad case Parsed(indexes, r7) =>
    match ParseLastFlag(r7) case Bad => Bad case Parsed(encrypted, r8) =>
      Parsed(TableRec(id, root, count, next, name, columns, indexes, encrypted), r8)
  }

  /** Anything after the last table is ignored. */
  function ParseTables(bytes: seq<Byte>): Option<Tables> {
    match ParseInt(4, bytes) case Bad => None case Parsed(magic, r1) =>
    if magic != SYSTEM_MAGIC then None else
    match ParseInt(4, r1) case Bad => None case Parsed(next, r2) =>
    match ParseList(ParseTable, r2) case Bad => None case Parsed(tables, _) => Some(Tables(tables, next))
  }

  // ----- what the fields can hold -----

  predicate TextOk(s: seq<Byte>) { |s| < U16 && Utf8(s) }

  predicate ColumnOk(c: ColumnRec) {
    TextOk(c.name) && (c.fallback.Some? ==> ValueOk(c.fallback.value) && |EncodeValue(c.fallback.value)| < U16)
  }

  predicate IndexOk(x: IndexRec) {
    TextOk(x.name) && |x.columns| < U16 && x.root < Pow256(4) && forall i :: 0 <= i < |x.columns| ==> TextOk(x.columns[i])
  }

  predicate TableOk(t: TableRec) {
    && t.tableId < Pow256(4) && t.root < Pow256(4) && t.rowCount < Pow256(8) && t.nextRowid < Pow256(8)
    && TextOk(t.name) && |t.columns| < U16 && |t.indexes| < U16
    && (forall i :: 0 <= i < |t.columns| ==> ColumnOk(t.columns[i]))
    && (forall i :: 0 <= i < |t.indexes| ==> IndexOk(t.indexes[i]))
  }

  predicate TablesOk(r: Tables) {
    r.nextTableId < Pow256(4) && |r.tables| < U16 && forall i :: 0 <= i < |r.tables| ==> TableOk(r.tables[i])
  }

  // ----- parsing inverts printing -----

  /** `parse` reads back what `show` wrote for `x`, whatever follows. */
  ghost predicate Reads<T>(show: T -> seq<Byte>, parse: seq<Byte> -> Parsed<T>, x: T) {
    forall rest: seq<Byte> {:trigger parse(show(x) + rest)} :: parse(show(x) + rest) == Parsed(x, rest)
  }

  lemma Cut<T>(a: seq<T>, b: seq<T>)
    ensures (a + b)[..|a|] == a && (a + b)[|a|..] == b
  {
  }

  lemma IntReads(n: nat, k: nat, rest: seq<Byte>)
    requires n < Pow256(k)
    ensures ParseInt(k, Le(n, k) + rest) == Parsed(n, rest)
  {
    LeRoundTrip(n, k);
    Cut(Le(n, k), rest);
  }

  lemma FlagReads(b: bool, rest: seq<Byte>)
    ensures ParseFlag(PrintFlag(b) + rest) == Parsed(b, rest)
    ensures ParseLastFlag(PrintFlag(b) + rest) == Parsed(b, rest)
  {
  }

  lemma BlockReads(s: seq<Byte>, rest: seq<Byte>)
    requires |s| < U16
    ensures ParseBlock(PrintText(s) + rest) == Parsed(s, rest)
  {
    PowValues();
    assert PrintText(s) + rest == Le(|s|, 2) + (s + rest);
    IntReads(|s|, 2, s + rest);
    Cut(s, rest);
  }

  lemma TextReads(s: seq<Byte>)
    requires TextOk(s)
    ensures Reads(PrintText, ParseText, s)
  {
    forall rest: seq<Byte> ensures ParseText(PrintText(s) + rest) == Parsed(s, rest) {
      BlockReads(s, rest);
    }
  }

  /** Nothing is read as a registry that does not begin with the magic number, and every registry does. */
  lemma MagicFirst(bytes: seq<Byte>, r: Tables)
    ensures ParseTables(bytes).Some? ==> bytes[..4] == [0x50, 0x51, 0x0D, 0xB0]
    ensures PrintTables(r)[..4] == [0x50, 0x51, 0x0D, 0xB0]
  {
    MagicBytes();
    Cut(Le(SYSTEM_MAGIC, 4), Le(r.nextTableId, 4) + PrintList(PrintTable, r.tables));
    if ParseTables(bytes).Some? { LeInverse(bytes[..4]); }
  }

  lemma MagicBytes()
    ensures Le(SYSTEM_MAGIC, 4) == [0x50, 0x51, 0x0D, 0xB0]
  {
    assert Le(0xB0, 1) == [0xB0] + Le(0, 0);
    assert Le(0xB00D, 2) == [0x0D] + Le(0xB0, 1);
    assert Le(0xB00D51, 3) == [0x51] + Le(0xB00D, 2);
    assert Le(0xB00D5150, 4) == [0x50] + Le(0xB00D51, 3);
  }

  lemma {:induction false} ManyReads<T>(show: T -> seq<Byte>, parse: seq<Byte> -> Parsed<T>, xs: seq<T>, rest: seq<Byte>)
    requires forall i :: 0 <= i < |xs| ==> Reads(show, parse, xs[i])
    ensures ParseMany(parse, |xs|, PrintMany(show, xs) + rest) == Parsed(xs, rest)
  {
    if xs == [] {
      assert PrintMany(show, xs) + rest == rest;
    } else {
      var tail := PrintMany(show, xs[1..]) + rest;
      assert PrintMany(show, xs) + rest == show(xs[0]) + tail;
      assert Reads(show, parse, xs[0]) && parse(show(xs[0]) + tail) == Parsed(xs[0], tail);
      ManyReads(show, parse, xs[1..], rest);
      assert xs == [xs[0]] + xs[1..];
    }
  }

  lemma ListReads<T>(show: T -> seq<Byte>, parse: seq<Byte> -> Parsed<T>, xs: seq<T>, rest: seq<Byte>)
    requires |xs| < U16 && forall i :: 0 <= i < |xs| ==> Reads(show, parse, xs[i])
    ensures ParseList(parse, PrintList(show, xs) + rest) == Parsed(xs, rest)
  {
    PowValues();
    assert PrintList(show, xs) + rest == Le(|xs|, 2) + (PrintMany(show, xs) + rest);
    IntReads(|xs|, 2, PrintMany(show, xs) + rest);
    ManyReads(show, parse, xs, rest);
  }

  lemma CountRead(n: nat)
    ensures FromLe(Le(n, 2)) == n % U16
  {
    assert Le(n / 256, 1) == [n / 256 % 256] + Le(n / 256 / 256, 0);
    assert Le(n, 2) == [n % 256] + Le(n / 256, 1);
    assert Le(n, 2)[1..] == [n / 256 % 256] && Le(n, 2)[1..][1..] == [];
    assert FromLe([n / 256 % 256]) == n / 256 % 256 + 256 * FromLe([]);
  }

  /**
   * The count of a list is written in 16 bits: the list reads back exactly when it has fewer
   * than 65536 elements. A longer one loses the first multiple of 65536 from its count.
   */
  lemma ListCountWraps<T>(show: T -> seq<Byte>, parse: seq<Byte> -> Parsed<T>, xs: seq<T>, rest: seq<Byte>)
    requires forall i :: 0 <= i < |xs| ==> Reads(show, parse, xs[i])
    ensures var n := |xs| % U16;
            ParseList(parse, PrintList(show, xs) + rest) == Parsed(xs[..n], PrintMany(show, xs[n..]) + rest)
    ensures ParseList(parse, PrintList(show, xs) + rest) == Parsed(xs, rest) <==> |xs| < U16
  {
    var n := |xs| % U16;
    var bytes := PrintList(show, xs) + rest;
    assert bytes == Le(|xs|, 2) + (PrintMany(show, xs) + rest);
    Cut(Le(|xs|, 2), PrintMany(show, xs) + rest);
    CountRead(|xs|);
    ManySplit(show, xs, n, rest);
    ManyReads(show, parse, xs[..n], PrintMany(show, xs[n..]) + rest);
    if |xs| < U16 {
      assert xs[..n] == xs && xs[n..] == [];
      assert [] + rest == rest;
    } else {
      assert |xs[..n]| < |xs|;
    }
  }

  lemma {:induction false} ManySplit<T>(show: T -> seq<Byte>, xs: seq<T>, n: nat, rest: seq<Byte>)
    requires n <= |xs|
    ensures PrintMany(show, xs) + rest == PrintMany(show, xs[..n]) + (PrintMany(show, xs[n..]) + rest)
  {
    if n == 0 {
      assert xs[0..] == xs && [] + (PrintMany(show, xs) + rest) == PrintMany(show, xs) + rest;
    } else {
      ManySplit(show, xs[1..], n - 1, rest);
      assert xs[..n][1..] == xs[1..][..n - 1] && xs[1..][n - 1..] == xs[n..];
      assert PrintMany(show, xs) + rest == show(xs[0]) + (PrintMany(show, xs[1..]) + rest);
      Assoc(show(xs[0]), PrintMany(show, xs[..n][1..]), PrintMany(show, xs[n..]) + rest);
    }
  }

  lemma DefaultReads(v: Option<Value>, rest: seq<Byte>)
    requires v.Some? ==> ValueOk(v.value) && |EncodeValue(v.value)| < U16
    ensures ParseDefault(PrintDefault(v) + rest) == Parsed(v, rest)
  {
    if v.Some? {
      var bytes := EncodeValue(v.value);
      Assoc(PrintFlag(true), PrintText(bytes), rest);
      FlagReads(true, PrintText(bytes) + rest);
      BlockReads(bytes, rest);
      ValueRoundTrip(v.value, []);
      assert bytes + [] == bytes;
    } else {
      FlagReads(false, rest);
    }
  }

  lemma ColumnReads(c: ColumnRec)
    requires ColumnOk(c)
    ensures Reads(PrintColumn, ParseColumn, c)
  {
    forall rest: seq<Byte> ensures ParseColumn(PrintColumn(c) + rest) == Parsed(c, rest) {
      var x6 := PrintDefault(c.fallback);
      var x5 := PrintFlag(c.dropped) + x6;
      var x4 := PrintFlag(c.unique) + x5;
      var x3 := PrintFlag(c.nullable) + x4;
      var x2 := [TypeTag(c.colType)] + x3;
      Assoc(PrintText(c.name), x2, rest);
      Assoc([TypeTag(c.colType)], x3, rest);
      Assoc(PrintFlag(c.nullable), x4, rest);
      Assoc(PrintFlag(c.unique), x5, rest);
      Assoc(PrintFlag(c.dropped), x6, rest);
      TextReadsAt(c.name, x2 + rest);
      TypeReads(c.colType, x3 + rest);
      FlagReads(c.nullable, x4 + rest);
      FlagReads(c.unique, x5 + rest);
      FlagReads(c.dropped, x6 + rest);
      DefaultReads(c.fallback, rest);
      ColumnParses(c, PrintColumn(c) + rest, x2 + rest, x3 + rest, x4 + rest, x5 + rest, x6 + rest, rest);
    }
  }

  lemma TextReadsAt(s: seq<Byte>, rest: seq<Byte>)
    requires TextOk(s)
    ensures ParseText(PrintText(s) + rest) == Parsed(s, rest)
  {
    BlockReads(s, rest);
  }

  lemma TypeReads(t: Type, rest: seq<Byte>)
    ensures ParseType([TypeTag(t)] + rest) == Parsed(t, rest)
  {
    assert ([TypeTag(t)] + rest)[1..] == rest;
  }

  /** The steps of parsing a column, one after another. */
  lemma ColumnParses(c: ColumnRec, b: seq<Byte>, r1: seq<Byte>, r2: seq<Byte>, r3: seq<Byte>, r4: seq<Byte>, r5: seq<Byte>, r6: seq<Byte>)
    requires ParseText(b) == Parsed(c.name, r1) && ParseType(r1) == Parsed(c.colType, r2)
    requires ParseFlag(r2) == Parsed(c.nullable, r3) && ParseFlag(r3) == Parsed(c.unique, r4)
    requires ParseFlag(r4) == Parsed(c.dropped, r5) && ParseDefault(r5) == Parsed(c.fallback, r6)
    ensures ParseColumn(b) == Parsed(c, r6)
  {
  }

  lemma IndexReads(x: IndexRec)
    requires IndexOk(x)
    ensures Reads(PrintIndex, ParseIndex, x)
  {
    forall i | 0 <= i < |x.columns| ensures Reads(PrintText, ParseText, x.columns[i]) { TextReads(x.columns[i]); }
    forall rest: seq<Byte> ensures ParseIndex(PrintIndex(x) + rest) == Parsed(x, rest) {
      var x4 := Le(x.root, 4);
      var x3 := PrintFlag(x.unique) + x4;
      var x2 := PrintList(PrintText, x.columns) + x3;
      Assoc(PrintText(x.name), x2, rest);
      Assoc(PrintList(PrintText, x.columns), x3, rest);
      Assoc(PrintFlag(x.unique), x4, rest);
      TextReadsAt(x.name, x2 + rest);
      ListReads(PrintText, ParseText, x.columns, x3 + rest);
      FlagReads(x.unique, x4 + rest);
      IntReads(x.root, 4, rest);
      IndexParses(x, PrintIndex(x) + rest, x2 + rest, x3 + rest, x4 + rest, rest);
    }
  }

  /** The steps of parsing an index, one after another. */
  lemma IndexParses(x: IndexRec, b: seq<Byte>, r1: seq<Byte>, r2: seq<Byte>, r3: seq<Byte>, r4: seq<Byte>)
    requires ParseText(b) == Parsed(x.name, r1) && ParseList(ParseText, r1) == Parsed(x.columns, r2)
    requires ParseFlag(r2) == Parsed(x.unique, r3) && ParseInt(4, r3) == Parsed(x.root, r4)
    ensures ParseIndex(b) == Parsed(x, r4)
  {
  }

  lemma TableReads(t: TableRec)
    requires TableOk(t)
    ensures Reads(PrintTable, ParseTable, t)
  {
    forall i | 0 <= i < |t.columns| ensures Reads(PrintColumn, ParseColumn, t.columns[i]) { ColumnReads(t.columns[i]); }
    forall i | 0 <= i < |t.indexes| ensures Reads(PrintIndex, ParseIndex, t.indexes[i]) { IndexReads(t.indexes[i]); }
    forall rest: seq<Byte> ensures ParseTable(PrintTable(t) + rest) == Parsed(t, rest) {
      TableParses(t, rest);
    }
  }

  lemma TableParses(t: TableRec, rest: seq<Byte>)
    requires TableOk(t)
    requires forall i :: 0 <= i < |t.columns| ==> Reads(PrintColumn, ParseColumn, t.columns[i])
    requires forall i :: 0 <= i < |t.indexes| ==> Reads(PrintIndex, ParseIndex, t.indexes[i])
    ensures ParseTable(PrintTable(t) + rest) == Parsed(t, rest)
  {
    var x8 := PrintFlag(t.encrypted);
    var x7 := PrintList(PrintIndex, t.indexes) + x8;
    var x6 := PrintList(PrintColumn, t.columns) + x7;
    var x5 := PrintText(t.name) + x6;
    var x4 := Le(t.nextRowid, 8) + x5;
    var x3 := Le(t.rowCount, 8) + x4;
    var x2 := Le(t.root, 4) + x3;
    Assoc(Le(t.tableId, 4), x2, rest);
    Assoc(Le(t.root, 4), x3, rest);
    Assoc(Le(t.rowCount, 8), x4, rest);
    Assoc(Le(t.nextRowid, 8), x5, rest);
    Assoc(PrintText(t.name), x6, rest);
    Assoc(PrintList(PrintColumn, t.columns), x7, rest);
    Assoc(PrintList(PrintIndex, t.indexes), x8, rest);
    TableFields(t, PrintTable(t) + rest, x2 + rest, x3 + rest, x4 + rest, x5 + rest, x6 + rest, x7 + rest, x8 + rest, rest);
  }

  /** The steps of parsing a table, one after another. */
  lemma TableFields(t: TableRec, b: seq<Byte>, r1: seq<Byte>, r2: seq<Byte>, r3: seq<Byte>, r4: seq<Byte>, r5: seq<Byte>,
                    r6: seq<Byte>, r7: seq<Byte>, r8: seq<Byte>)
    requires TableOk(t)
    requires forall i :: 0 <= i < |t.columns| ==> Reads(PrintColumn, ParseColumn, t.columns[i])
    requires forall i :: 0 <= i < |t.indexes| ==> Reads(PrintIndex, ParseIndex, t.indexes[i])
    requires b == Le(t.tableId, 4) + r1 && r1 == Le(t.root, 4) + r2 && r2 == Le(t.rowCount, 8) + r3 && r3 == Le(t.nextRowid, 8) + r4
    requires r4 == PrintText(t.name) + r5 && r5 == PrintList(PrintColumn, t.columns) + r6
    requires r6 == PrintList(PrintIndex, t.indexes) + r7 && r7 == PrintFlag(t.encrypted) + r8
    ensures ParseTable(b) == Parsed(t, r8)
  {
    IntReads(t.tableId, 4, r1);
    IntReads(t.root, 4, r2);
    IntReads(t.rowCount, 8, r3);
    IntReads(t.nextRowid, 8, r4);
    TextReadsAt(t.name, r5);
    ListReads(PrintColumn, ParseColumn, t.columns, r6);
    ListReads(PrintIndex, ParseIndex, t.indexes, r7);
    FlagReads(t.encrypted, r8);
    TableSteps(t, b, r1, r2, r3, r4, r5, r6, r7, r8);
  }

  lemma TableSteps(t: TableRec, b: seq<Byte>, r1: seq<Byte>, r2: seq<Byte>, r3: seq<Byte>, r4: seq<Byte>, r5: seq<Byte>,
                   r6: seq<Byte>, r7: seq<Byte>, r8: seq<Byte>)
    requires ParseInt(4, b) == Parsed(t.tableId, r1) && ParseInt(4, r1) == Parsed(t.root, r2)
    requires ParseInt(8, r2) == Parsed(t.rowCount, r3) && ParseInt(8, r3) == Parsed(t.nextRowid, r4)
    requires ParseText(r4) == Parsed(t.name, r5) && ParseList(ParseColumn, r5) == Parsed(t.columns, r6)
    requires ParseList(ParseIndex, r6) == Parsed(t.indexes, r7) && ParseLastFlag(r7) == Parsed(t.encrypted, r8)
    ensures ParseTable(b) == Parsed(t, r8)
  {
  }

  /** Parsing the printed registry gives it back, whatever padding follows. */
  lemma TablesParse(r: Tables, padding: seq<Byte>)
    requires TablesOk(r)
    ensures ParseTables(PrintTables(r) + padding) == Some(r)
  {
    PowValues();
    var p3 := PrintList(PrintTable, r.tables) + padding;
    var p2 := Le(r.nextTableId, 4) + p3;
    assert PrintTables(r) + padding == Le(SYSTEM_MAGIC, 4) + p2;
    IntReads(SYSTEM_MAGIC, 4, p2);
    IntReads(r.nextTableId, 4, p3);
    forall i | 0 <= i < |r.tables| ensures Reads(PrintTable, ParseTable, r.tables[i]) { TableReads(r.tables[i]); }
    ListReads(PrintTable, ParseTable, r.tables, padding);
  }

  // ----- the system page and its chain -----

  const INLINE_BUDGET := PAGE_SIZE - PAGE_HEADER_SIZE - CHECKSUM_SIZE - OVERFLOW_TRAILER_SIZE

  /** Page 0 between header and checksum: the inline bytes, then room for a trailer. */
  datatype SystemPage = SystemPage(inline: seq<Byte>, trailer: seq<Byte>)

  function Zeros(n: nat): (s: seq<Byte>)
    ensures |s| == n && forall i :: 0 <= i < n ==> s[i] == 0
  {
    seq(n, _ => 0)
  }

  function FirstChunk(data: seq<Byte>): (n: nat)
    ensures n <= |data| && (data != [] ==> n > 0)
  {
    if |data| > OVERFLOW_PAYLOAD_MAX then OVERFLOW_PAYLOAD_MAX else |data|
  }

  /** The spilled bytes on pages `from`, `from + 1`, ..., each linking to the next. */
  function Spill(data: seq<Byte>, from: nat): map<nat, OverPage>
    decreases |data|
  {
    if data == [] then map[]
    else
      var rest := data[FirstChunk(data)..];
      Spill(rest, from + 1)[from := OverPage(data[..FirstChunk(data)], if rest == [] then 0 else from + 1)]
  }

  /** The walk along a chain for `left` bytes, cut off after `fuel` pages: still running, or done. */
  datatype Walked = Ended(bytes: Option<seq<Byte>>) | Running

  function Walk(pages: map<nat, OverPage>, current: nat, left: nat, fuel: nat): Walked
    decreases fuel
  {
    if current == 0 || left == 0 then Ended(if left == 0 then Some([]) else None)
    else if fuel == 0 then Running
    else if current !in pages then Ended(None)
    else
      var taken := Taken(pages[current], left);
      match Walk(pages, pages[current].next, left - |taken|, fuel - 1)
      case Running => Running
      case Ended(rest) => Ended(After(taken, rest))
  }

  function Taken(page: OverPage, left: nat): (s: seq<Byte>)
    ensures |s| <= left && (s == [] <==> left == 0 || page.payload == [])
  {
    page.payload[..if |page.payload| < left then |page.payload| else left]
  }

  /**
   * What the walk comes to. `seen` are the pages passed since bytes were last read; coming
   * back to one of them the walk goes round for good.
   */
  function Verdict(pages: map<nat, OverPage>, current: nat, left: nat, seen: set<nat>): Walked
    decreases left, pages.Keys - seen
  {
    if current == 0 || left == 0 then Ended(if left == 0 then Some([]) else None)
    else if current !in pages then Ended(None)
    else if current in seen then Running
    else
      var taken := Taken(pages[current], left);
      match Verdict(pages, pages[current].next, left - |taken|, if taken == [] then seen + {current} else {})
      case Running => Running
      case Ended(rest) => Ended(After(taken, rest))
  }

  /** The walk for `left` bytes from page `current` comes back to a page with nothing read in between. */
  predicate GoesRound(pages: map<nat, OverPage>, current: nat, left: nat) {
    Verdict(pages, current, left, {}).Running?
  }

  lemma {:induction false} VerdictEnds(pages: map<nat, OverPage>, current: nat, left: nat, seen: set<nat>) returns (fuel: nat)
    requires Verdict(pages, current, left, seen).Ended?
    ensures forall more :: more >= fuel ==> Walk(pages, current, left, more) == Verdict(pages, current, left, seen)
    decreases left, pages.Keys - seen
  {
    fuel := 1;
    if current != 0 && left != 0 && current in pages {
      var taken := Taken(pages[current], left);
      fuel := VerdictEnds(pages, pages[current].next, left - |taken|, if taken == [] then seen + {current} else {});
      fuel := fuel + 1;
    }
  }

  /** From page `p` the next `k` pages have no payload. */
  predicate Idle(pages: map<nat, OverPage>, p: nat, k: nat)
    decreases k
  {
    k == 0 || (p != 0 && p in pages && pages[p].payload == [] && Idle(pages, pages[p].next, k - 1))
  }

  function Hop(pages: map<nat, OverPage>, p: nat, k: nat): nat
    requires Idle(pages, p, k)
    decreases k
  {
    if k == 0 then p else Hop(pages, pages[p].next, k - 1)
  }

  lemma {:induction false} OneHopOn(pages: map<nat, OverPage>, p: nat, k: nat)
    requires Idle(pages, p, k)
    requires var q := Hop(pages, p, k); q != 0 && q in pages && pages[q].payload == []
    ensures Idle(pages, p, k + 1) && Hop(pages, p, k + 1) == pages[Hop(pages, p, k)].next
    decreases k
  {
    if k > 0 { OneHopOn(pages, pages[p].next, k - 1); }
  }

  /** A walk that can hop back to page `home` in `k` steps never ends. */
  lemma {:induction false} RoundForever(pages: map<nat, OverPage>, home: nat, round: nat, p: nat, k: nat, left: nat, fuel: nat)
    requires left > 0 && round > 0 && Idle(pages, home, round) && Hop(pages, home, round) == home
    requires Idle(pages, p, k) && Hop(pages, p, k) == home
    ensures Walk(pages, p, left, fuel) == Running
    decreases fuel
  {
    if k == 0 {
      if fuel > 0 { RoundForever(pages, home, round, pages[home].next, round - 1, left, fuel - 1); }
    } else if fuel > 0 {
      RoundForever(pages, home, round, pages[p].next, k - 1, left, fuel - 1);
    }
  }

  /** Each page of `seen` leads to `current` over pages without payload. */
  ghost predicate LeadTo(pages: map<nat, OverPage>, seen: set<nat>, current: nat) {
    forall q :: q in seen ==> exists k: nat :: LeadsIn(pages, q, current, k)
  }

  ghost predicate LeadsIn(pages: map<nat, OverPage>, q: nat, current: nat, k: nat) {
    k > 0 && Idle(pages, q, k) && Hop(pages, q, k) == current
  }

  lemma LeadOn(pages: map<nat, OverPage>, seen: set<nat>, current: nat)
    requires LeadTo(pages, seen, current) && current != 0 && current in pages && pages[current].payload == []
    ensures LeadTo(pages, seen + {current}, pages[current].next)
  {
    forall q | q in seen + {current} ensures exists k: nat :: LeadsIn(pages, q, pages[current].next, k) {
      if q in seen {
        var k: nat :| LeadsIn(pages, q, current, k);
        OneHopOn(pages, q, k);
        assert LeadsIn(pages, q, pages[current].next, k + 1);
      } else {
        assert Idle(pages, q, 0);
        OneHopOn(pages, q, 0);
        assert LeadsIn(pages, q, pages[current].next, 1);
      }
    }
  }

  lemma {:induction false} VerdictRuns(pages: map<nat, OverPage>, current: nat, left: nat, seen: set<nat>, fuel: nat)
    requires Verdict(pages, current, left, seen).Running? && LeadTo(pages, seen, current)
    ensures Walk(pages, current, left, fuel) == Running
    decreases left, pages.Keys - seen
  {
    if current in seen {
      var k: nat :| LeadsIn(pages, current, current, k);
      RoundForever(pages, current, k, current, 0, left, fuel);
    } else if fuel > 0 {
      var taken := Taken(pages[current], left);
      if taken == [] { LeadOn(pages, seen, current); }
      VerdictRuns(pages, pages[current].next, left - |taken|, if taken == [] then seen + {current} else {}, fuel - 1);
    }
  }

  /**
   * The walk has no cycle guard. It ends exactly when it does not come back to a page with
   * nothing read in between.
   */
  lemma WalkEndsExactly(pages: map<nat, OverPage>, current: nat, left: nat)
    ensures (exists fuel :: Walk(pages, current, left, fuel).Ended?) <==> !GoesRound(pages, current, left)
  {
    if GoesRound(pages, current, left) {
      forall fuel ensures !Walk(pages, current, left, fuel).Ended? { VerdictRuns(pages, current, left, {}, fuel); }
    } else {
      var fuel := VerdictEnds(pages, current, left, {});
      assert Walk(pages, current, left, fuel).Ended?;
    }
  }

  /** An input on which it does not: a page without payload that links to itself. */
  lemma SelfLinkGoesRound(p: nat, left: nat)
    requires p > 0 && left > 0
    ensures GoesRound(map[p := OverPage([], p)], p, left)
  {
    var pages := map[p := OverPage([], p)];
    assert Taken(pages[p], left) == [];
    assert Verdict(pages, p, left, {} + {p}).Running?;
  }

  /** Pages with a payload never make it go round. */
  lemma {:induction false} PayloadsEnd(pages: map<nat, OverPage>, current: nat, left: nat)
    requires forall p :: p in pages ==> pages[p].payload != []
    ensures !GoesRound(pages, current, left)
    decreases left
  {
    if current != 0 && left != 0 && current in pages {
      PayloadsEnd(pages, pages[current].next, left - |Taken(pages[current], left)|);
    }
  }

  /** The walk a system page asks for ends. */
  predicate ChainEnds(page: SystemPage, pages: map<nat, OverPage>)
    requires |page.trailer| == OVERFLOW_TRAILER_SIZE
  {
    page.trailer[..2] == OVERFLOW_MAGIC ==> !GoesRound(pages, TrailerFirst(page.trailer), TrailerRemaining(page.trailer))
  }

  function ReadRegistry(page: SystemPage, pages: map<nat, OverPage>): Option<Tables>
    requires |page.trailer| == OVERFLOW_TRAILER_SIZE && ChainEnds(page, pages)
  {
    if page.trailer[..2] != OVERFLOW_MAGIC then ParseTables(page.inline)
    else
      match Verdict(pages, TrailerFirst(page.trailer), TrailerRemaining(page.trailer), {}).bytes
      case None => None
      case Some(tail) => ParseTables(page.inline + tail)
  }

  /** Keep the bytes inline if they fit, else spill the rest to newly allocated pages. */
  method SerializeSystemPage(r: Tables, firstFree: nat) returns (page: SystemPage, pages: map<nat, OverPage>)
    requires 0 < firstFree
    ensures |page.inline| == INLINE_BUDGET && |page.trailer| == OVERFLOW_TRAILER_SIZE
    ensures var bytes := PrintTables(r);
            if |bytes| <= INLINE_BUDGET then
              page == SystemPage(bytes + Zeros(INLINE_BUDGET - |bytes|), Zeros(OVERFLOW_TRAILER_SIZE)) && pages == map[]
            else
              var tail := bytes[INLINE_BUDGET..];
              page == SystemPage(bytes[..INLINE_BUDGET], Trailer(firstFree, |tail|)) && pages == Spill(tail, firstFree)
  {
    var bytes := SerializeSystemMetas(r);
    if |bytes| <= INLINE_BUDGET {
      return SystemPage(bytes + Zeros(INLINE_BUDGET - |bytes|), Zeros(OVERFLOW_TRAILER_SIZE)), map[];
    }
    var tail := bytes[INLINE_BUDGET..];
    page := SystemPage(bytes[..INLINE_BUDGET], Trailer(firstFree, |tail|));
    pages := BuildChain(tail, firstFree);
  }

  method SerializeSystemMetas(r: Tables) returns (buf: seq<Byte>)
    ensures buf == PrintTables(r)
  {
    buf := Le(SYSTEM_MAGIC, 4) + Le(r.nextTableId, 4) + Le(|r.tables|, 2);
    ghost var head := buf;
    assert r.tables[0..] == r.tables;
    for i := 0 to |r.tables|
      invariant head + PrintMany(PrintTable, r.tables) == buf + PrintMany(PrintTable, r.tables[i..])
    {
      assert r.tables[i..][1..] == r.tables[i + 1..];
      Assoc(buf, PrintTable(r.tables[i]), PrintMany(PrintTable, r.tables[i + 1..]));
      buf := buf + PrintTable(r.tables[i]);
    }
    assert buf + [] == buf;
    ThreeThenRest(Le(SYSTEM_MAGIC, 4), Le(r.nextTableId, 4), Le(|r.tables|, 2), PrintMany(PrintTable, r.tables));
  }

  lemma ThreeThenRest<T>(a: seq<T>, b: seq<T>, c: seq<T>, d: seq<T>)
    ensures a + b + c + d == a + (b + (c + d))
  {
  }

  method BuildChain(tail: seq<Byte>, firstFree: nat) returns (pages: map<nat, OverPage>)
    ensures pages == Spill(tail, firstFree)
  {
    pages := map[];
    var rest, p := tail, firstFree;
    while rest != []
      invariant p >= firstFree && pages + Spill(rest, p) == Spill(tail, firstFree)
      invariant forall q :: q in pages ==> firstFree <= q < p
      decreases |rest|
    {
      ChunkMoves(pages, rest, p);
      var chunk := rest[..FirstChunk(rest)];
      rest := rest[FirstChunk(rest)..];
      pages := pages[p := OverPage(chunk, if rest == [] then 0 else p + 1)];
      p := p + 1;
    }
    assert pages + map[] == pages;
  }

  /** Writing the first page of what is left. */
  lemma ChunkMoves(pages: map<nat, OverPage>, rest: seq<Byte>, p: nat)
    requires rest != []
    ensures var later := rest[FirstChunk(rest)..];
            pages + Spill(rest, p) == pages[p := OverPage(rest[..FirstChunk(rest)], if later == [] then 0 else p + 1)] + Spill(later, p + 1)
  {
    SpillFrom(rest[FirstChunk(rest)..], p + 1);
  }

  lemma {:induction false} SpillFrom(data: seq<Byte>, from: nat)
    ensures forall q :: q in Spill(data, from) ==> q >= from && Spill(data, from)[q].payload != []
    decreases |data|
  {
    if data != [] { SpillFrom(data[FirstChunk(data)..], from + 1); }
  }

  /** A spilled chain reads back, whatever other pages are beside it. */
  lemma {:induction false} SpillReads(data: seq<Byte>, from: nat, pages: map<nat, OverPage>)
    requires from > 0
    requires forall p :: p in Spill(data, from) ==> p in pages && pages[p] == Spill(data, from)[p]
    ensures Verdict(pages, from, |data|, {}) == Ended(Some(data))
    decreases |data|
  {
    if data != [] {
      var n := FirstChunk(data);
      var rest := data[n..];
      SpillFrom(rest, from + 1);
      forall p | p in Spill(rest, from + 1) ensures p in pages && pages[p] == Spill(rest, from + 1)[p] {
        assert Spill(data, from)[p] == Spill(rest, from + 1)[p];
      }
      SpillReads(rest, from + 1, pages);
      assert pages[from] == Spill(data, from)[from];
      FirstPageReads(pages, from, rest, |data|);
      assert data == data[..n] + rest;
    }
  }

  lemma FirstPageReads(pages: map<nat, OverPage>, from: nat, rest: seq<Byte>, left: nat)
    requires from > 0 && from in pages && pages[from].payload != [] && left == |pages[from].payload| + |rest|
    requires Verdict(pages, pages[from].next, |rest|, {}) == Ended(Some(rest))
    ensures Verdict(pages, from, left, {}) == Ended(Some(pages[from].payload + rest))
  {
    TakenWhole(pages[from], left);
    VerdictStep(pages, from, left);
  }

  lemma TakenWhole(page: OverPage, left: nat)
    requires |page.payload| <= left
    ensures Taken(page, left) == page.payload
  {
  }

  /** One page whose payload is read. */
  lemma VerdictStep(pages: map<nat, OverPage>, current: nat, left: nat)
    requires current > 0 && left > 0 && current in pages && Taken(pages[current], left) != []
    ensures var taken := Taken(pages[current], left);
            var rest := Verdict(pages, pages[current].next, left - |taken|, {});
            Verdict(pages, current, left, {}) == if rest.Running? then Running else Ended(After(taken, rest.bytes))
  {
  }

  /** The chain walk as the loop it is; it comes to an end exactly on the pages asked for. */
  method ReassembleRegistry(page: SystemPage, pages: map<nat, OverPage>) returns (r: Option<Tables>)
    requires |page.trailer| == OVERFLOW_TRAILER_SIZE && ChainEnds(page, pages)
    ensures r == ReadRegistry(page, pages)
  {
    if page.trailer[..2] != OVERFLOW_MAGIC { return ParseTables(page.inline); }
    var first, remaining := TrailerFirst(page.trailer), TrailerRemaining(page.trailer);
    if first == 0 && remaining > 0 { return None; }
    var tail: seq<Byte>, current: nat, left: nat := [], first, remaining;
    ghost var goal, seen: set<nat> := Verdict(pages, first, remaining, {}).bytes, {};
    assert goal.Some? ==> [] + goal.value == goal.value;
    while current != 0 && left > 0
      invariant Verdict(pages, current, left, seen).Ended?
      invariant goal == After(tail, Verdict(pages, current, left, seen).bytes)
      decreases left, pages.Keys - seen
    {
      if current !in pages { return None; }
      var payload := pages[current].payload;
      var take := if |payload| < left then |payload| else left;
      assert payload[..take] == Taken(pages[current], left);
      ghost var now := if take == 0 then seen + {current} else {};
      AfterTwice(tail, payload[..take], Verdict(pages, pages[current].next, left - take, now).bytes);
      tail := tail + payload[..take];
      left := left - take;
      current, seen := pages[current].next, now;
    }
    if left > 0 { return None; }
    assert tail + [] == tail;
    return ParseTables(page.inline + tail);
  }

  function After(tail: seq<Byte>, rest: Option<seq<Byte>>): Option<seq<Byte>> {
    if rest.None? then None else Some(tail + rest.value)
  }

  lemma AfterTwice(a: seq<Byte>, b: seq<Byte>, rest: Option<seq<Byte>>)
    ensures After(a, After(b, rest)) == After(a + b, rest)
  {
    if rest.Some? { Assoc(a, b, rest.value); }
  }

  lemma TrailerReads(first: nat, remaining: nat)
    requires first < Pow256(4) && remaining < Pow256(4)
    ensures Trailer(first, remaining)[..2] == OVERFLOW_MAGIC
    ensures TrailerFirst(Trailer(first, remaining)) == first && TrailerRemaining(Trailer(first, remaining)) == remaining
  {
    LeRoundTrip(first, 4);
    LeRoundTrip(remaining, 4);
    TrailerFields(Le(first, 4), Le(remaining, 4));
  }

  lemma TrailerFields(a: seq<Byte>, b: seq<Byte>)
    requires |a| == 4 && |b| == 4
    ensures var t := OVERFLOW_MAGIC + a + b; |t| == 10 && t[..2] == OVERFLOW_MAGIC && t[2..6] == a && t[6..] == b
  {
  }

  /** What was written reads back as the registry, whether it stayed inline or spilled. */
  lemma RegistryReadsBack(r: Tables, firstFree: nat, page: SystemPage, pages: map<nat, OverPage>)
    requires TablesOk(r) && 0 < firstFree < Pow256(4) && |PrintTables(r)| < Pow256(4)
    requires |page.trailer| == OVERFLOW_TRAILER_SIZE
    requires var bytes := PrintTables(r);
             if |bytes| <= INLINE_BUDGET then page == SystemPage(bytes + Zeros(INLINE_BUDGET - |bytes|), Zeros(OVERFLOW_TRAILER_SIZE))
             else
               && page == SystemPage(bytes[..INLINE_BUDGET], Trailer(firstFree, |bytes[INLINE_BUDGET..]|))
               && forall p :: p in Spill(bytes[INLINE_BUDGET..], firstFree) ==>
                    p in pages && pages[p] == Spill(bytes[INLINE_BUDGET..], firstFree)[p]
    ensures ChainEnds(page, pages) && ReadRegistry(page, pages) == Some(r)
  {
    var bytes := PrintTables(r);
    if |bytes| <= INLINE_BUDGET {
      assert page.trailer[..2][0] == 0;
      TablesParse(r, Zeros(INLINE_BUDGET - |bytes|));
    } else {
      SpilledReadsBack(r, bytes, firstFree, page, pages);
    }
  }

  lemma SpilledReadsBack(r: Tables, bytes: seq<Byte>, firstFree: nat, page: SystemPage, pages: map<nat, OverPage>)
    requires TablesOk(r) && bytes == PrintTables(r) && INLINE_BUDGET < |bytes| < Pow256(4) && 0 < firstFree < Pow256(4)
    requires page == SystemPage(bytes[..INLINE_BUDGET], Trailer(firstFree, |bytes[INLINE_BUDGET..]|))
    requires forall p :: p in Spill(bytes[INLINE_BUDGET..], firstFree) ==>
               p in pages && pages[p] == Spill(bytes[INLINE_BUDGET..], firstFree)[p]
    ensures ChainEnds(page, pages) && ReadRegistry(page, pages) == Some(r)
  {
    var tail := bytes[INLINE_BUDGET..];
    TrailerReads(firstFree, |tail|);
    SpillReads(tail, firstFree, pages);
    CutAt(bytes, INLINE_BUDGET);
    TablesParse(r, []);
    assert bytes + [] == bytes;
  }
}
