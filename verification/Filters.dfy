/** Filters on values and on the raw bytes of a column. */
module Filters {
  import opened Seqs
  import opened Bytes
  import opened Values
  import opened ValueCodec
  import opened RowLayout
  import opened RowCodec
  import opened Schema
  import opened Store

  datatype Ordering = Less | Equal | Greater
  datatype FilterOp = OpEq | OpNe | OpLt | OpLe | OpGt | OpGe | OpIn | OpIsNull | OpIsNotNull
  datatype Filter = Filter(column: string, op: FilterOp, value: Value, list: Option<seq<Value>>)

  // ----- comparing values -----

  /** An integer against a real would need a rounding conversion. */
  predicate CrossNumeric(v: Value, w: Value) {
    (v.Integer? && w.Real?) || (v.Real? && w.Integer?)
  }

  const INFINITY_BITS := 0x7FF0_0000_0000_0000

  predicate IsNaN(bits: Word64) {
    bits % TWO_63 > INFINITY_BITS
  }

  /** Reals that are not NaN in the order of their values; both zeros are equal. */
  function RealValue(bits: Word64): int {
    if bits == TWO_63 then 0 else RealRank(bits)
  }

  function Order(a: int, b: int): Ordering {
    if a < b then Less else if a > b then Greater else Equal
  }

  function ByteOrder(a: seq<Byte>, b: seq<Byte>): Ordering {
    if LexLess(a, b) then Less else if a == b then Equal else Greater
  }

  /** No result for values of different types; null sorts first, NaN last. */
  function CompareValues(v: Value, w: Value): Option<Ordering>
    requires !CrossNumeric(v, w)
  {
    match (v, w)
    case (Null, Null) => Some(Equal)
    case (Null, _) => Some(Less)
    case (_, Null) => Some(Greater)
    case (Integer(a), Integer(b)) => Some(Order(a, b))
    case (Real(a), Real(b)) =>
      if IsNaN(a) || IsNaN(b) then Some(if IsNaN(a) && IsNaN(b) then Equal else if IsNaN(a) then Greater else Less)
      else Some(Order(RealValue(a), RealValue(b)))
    case (Text(a), Text(b)) => Some(ByteOrder(a, b))
    case (Boolean(a), Boolean(b)) => Some(if a == b then Equal else if b then Less else Greater)
    case (Blob(a), Blob(b)) => Some(ByteOrder(a, b))
    case _ => None
  }

  /** One representative of the values that compare equal: both zeros, and all NaNs. */
  function Canon(v: Value): Value {
    match v
    case Real(bits) => if IsNaN(bits) then Real(INFINITY_BITS + 1) else if bits == TWO_63 then Real(0) else v
    case _ => v
  }

  /** Values compare equal exactly when they have the same representative. */
  lemma EqualIsCanon(v: Value, w: Value)
    requires !CrossNumeric(v, w)
    ensures CompareValues(v, w) == Some(Equal) <==> Canon(v) == Canon(w)
  {
    if v.Text? && w.Text? { OrderEqual(v.chars, w.chars); }
    if v.Blob? && w.Blob? { OrderEqual(v.bytes, w.bytes); }
  }

  predicate Satisfies(op: FilterOp, ord: Ordering) {
    match op
    case OpEq => ord == Equal
    case OpNe => ord != Equal
    case OpLt => ord == Less
    case OpLe => ord != Greater
    case OpGt => ord == Greater
    case OpGe => ord != Less
    case _ => false
  }

  predicate EvalOp(actual: Value, op: FilterOp, expected: Value)
    requires !CrossNumeric(actual, expected)
  {
    match op
    case OpIn => false
    case OpIsNull => actual.Null?
    case OpIsNotNull => !actual.Null?
    case _ =>
      match CompareValues(actual, expected)
      case Some(ord) => Satisfies(op, ord)
      case None => false
  }

  // ----- what the operators mean -----

  /** One value sorts before another: null first, integers, text and blobs by their order, NaN after every real. */
  predicate Below(v: Value, w: Value) {
    match (v, w)
    case (Null, _) => !w.Null?
    case (Integer(a), Integer(b)) => a < b
    case (Text(a), Text(b)) => LexLess(a, b)
    case (Blob(a), Blob(b)) => LexLess(a, b)
    case (Boolean(a), Boolean(b)) => !a && b
    case (Real(a), Real(b)) => !IsNaN(a) && (IsNaN(b) || RealBelow(a, b))
    case _ => false
  }

  /** By sign and magnitude; the two zeros are not below one another. */
  predicate RealBelow(a: Word64, b: Word64) {
    var p, q := a % TWO_63, b % TWO_63;
    if a >= TWO_63 then (if b >= TWO_63 then p > q else p > 0 || q > 0) else b < TWO_63 && p < q
  }

  /** Values that have an order: equal types, or one of them null. */
  predicate Ordered(v: Value, w: Value) {
    || v.Null? || w.Null? || (v.Integer? && w.Integer?) || (v.Real? && w.Real?) || (v.Text? && w.Text?)
    || (v.Blob? && w.Blob?) || (v.Boolean? && w.Boolean?)
  }

  /** The six comparisons of two values: all fail without an order, else they follow `less` and `equal`. */
  ghost predicate SixOps(v: Value, w: Value, ordered: bool, less: bool, equal: bool)
    requires !CrossNumeric(v, w)
  {
    && (EvalOp(v, OpEq, w) <==> ordered && equal)
    && (EvalOp(v, OpNe, w) <==> ordered && !equal)
    && (EvalOp(v, OpLt, w) <==> ordered && less)
    && (EvalOp(v, OpLe, w) <==> ordered && (less || equal))
    && (EvalOp(v, OpGt, w) <==> ordered && !less && !equal)
    && (EvalOp(v, OpGe, w) <==> ordered && !less)
  }

  lemma OperatorsMean(v: Value, w: Value)
    requires !CrossNumeric(v, w)
    ensures SixOps(v, w, Ordered(v, w), Below(v, w), Canon(v) == Canon(w))
    ensures EvalOp(v, OpIsNull, w) <==> v.Null?
    ensures EvalOp(v, OpIsNotNull, w) <==> !v.Null?
  {
    EqualIsCanon(v, w);
    match (v, w)
    case (Text(a), Text(b)) => LexTrichotomy(a, b);
    case (Blob(a), Blob(b)) => LexTrichotomy(a, b);
    case (Real(a), Real(b)) => RealOrders(a, b);
    case _ =>
  }

  lemma LexTrichotomy(a: seq<Byte>, b: seq<Byte>)
    ensures LexLess(a, b) ==> a != b && !LexLess(b, a)
    ensures !LexLess(a, b) && a != b ==> LexLess(b, a)
  {
    LexIrreflexive(a);
    LexAsymmetric(a, b);
    if !LexLess(a, b) && a != b { LexTotal(a, b); }
  }

  lemma RealOrders(a: Word64, b: Word64)
    ensures !IsNaN(a) && !IsNaN(b) ==> (RealValue(a) < RealValue(b) <==> RealBelow(a, b))
  {
  }

  /** Integers: the operators are the comparisons of numbers. */
  lemma IntegerOperators(a: Int64, b: Int64)
    ensures EvalOp(Integer(a), OpEq, Integer(b)) <==> a == b
    ensures EvalOp(Integer(a), OpNe, Integer(b)) <==> a != b
    ensures EvalOp(Integer(a), OpLt, Integer(b)) <==> a < b
    ensures EvalOp(Integer(a), OpLe, Integer(b)) <==> a <= b
    ensures EvalOp(Integer(a), OpGt, Integer(b)) <==> a > b
    ensures EvalOp(Integer(a), OpGe, Integer(b)) <==> a >= b
  {
    OperatorsMean(Integer(a), Integer(b));
  }

  /** Text: equality of bytes, and byte order. */
  lemma TextOperators(a: seq<Byte>, b: seq<Byte>)
    ensures EvalOp(Text(a), OpEq, Text(b)) <==> a == b
    ensures EvalOp(Text(a), OpNe, Text(b)) <==> a != b
    ensures EvalOp(Text(a), OpLt, Text(b)) <==> LexLess(a, b)
    ensures EvalOp(Text(a), OpLe, Text(b)) <==> a == b || LexLess(a, b)
    ensures EvalOp(Text(a), OpGt, Text(b)) <==> LexLess(b, a)
    ensures EvalOp(Text(a), OpGe, Text(b)) <==> a == b || LexLess(b, a)
  {
    OperatorsMean(Text(a), Text(b));
    LexTrichotomy(a, b);
  }

  /** Null is below every value and equal to itself; values of different types pass no comparison. */
  lemma NullAndMixedOperators(v: Value, w: Value)
    requires !CrossNumeric(v, w)
    ensures v.Null? && !w.Null? ==> SixOps(v, w, true, true, false)
    ensures !v.Null? && w.Null? ==> SixOps(v, w, true, false, false)
    ensures v.Null? && w.Null? ==> SixOps(v, w, true, false, true)
    ensures v.Integer? && !w.Integer? && !w.Null? ==> SixOps(v, w, false, false, false)
    ensures v.Text? && !w.Text? && !w.Null? ==> SixOps(v, w, false, false, false)
    ensures v.Boolean? && !w.Boolean? && !w.Null? ==> SixOps(v, w, false, false, false)
    ensures v.Real? && !w.Real? && !w.Null? ==> SixOps(v, w, false, false, false)
    ensures v.Blob? && !w.Blob? && !w.Null? ==> SixOps(v, w, false, false, false)
    ensures v.Boolean? && w.Boolean? ==> SixOps(v, w, true, !v.b && w.b, v.b == w.b)
  {
    OperatorsMean(v, w);
  }

  /** A list filter passes exactly the values equal to one of the list. */
  lemma InMeans(actual: Value, values: seq<Value>)
    requires forall i :: 0 <= i < |values| ==> !CrossNumeric(actual, values[i])
    ensures MatchesAny(actual, values) <==> exists i :: 0 <= i < |values| && Canon(actual) == Canon(values[i])
  {
    forall i | 0 <= i < |values| ensures CompareValues(actual, values[i]) == Some(Equal) <==> Canon(actual) == Canon(values[i]) {
      EqualIsCanon(actual, values[i]);
    }
  }

  /** What a filter asks of a value, without the comparison results. */
  ghost predicate Meets(v: Value, op: FilterOp, w: Value) {
    match op
    case OpEq => Canon(v) == Canon(w)
    case OpNe => Ordered(v, w) && Canon(v) != Canon(w)
    case OpLt => Below(v, w)
    case OpLe => Below(v, w) || Canon(v) == Canon(w)
    case OpGt => Below(w, v)
    case OpGe => Below(w, v) || Canon(v) == Canon(w)
    case OpIsNull => v.Null?
    case OpIsNotNull => !v.Null?
    case OpIn => false
  }

  lemma EvalMeets(v: Value, op: FilterOp, w: Value)
    requires !CrossNumeric(v, w)
    ensures EvalOp(v, op, w) <==> Meets(v, op, w)
  {
    OperatorsMean(v, w);
    OneOfThree(v, w);
  }

  /** Ordered values are equal, or exactly one is below the other. */
  lemma OneOfThree(v: Value, w: Value)
    requires !CrossNumeric(v, w)
    ensures Ordered(v, w) ==> (Below(w, v) <==> !Below(v, w) && Canon(v) != Canon(w))
    ensures !Ordered(v, w) ==> !Below(v, w) && !Below(w, v) && Canon(v) != Canon(w)
    ensures Below(v, w) ==> Canon(v) != Canon(w)
  {
    OperatorsMean(v, w);
    match (v, w)
    case (Text(a), Text(b)) => LexTrichotomy(a, b);
    case (Blob(a), Blob(b)) => LexTrichotomy(a, b);
    case (Real(a), Real(b)) => RealThree(a, b);
    case _ =>
  }

  lemma RealThree(a: Word64, b: Word64)
    ensures !IsNaN(a) && !IsNaN(b) ==> (RealBelow(b, a) <==> !RealBelow(a, b) && Canon(Real(a)) != Canon(Real(b)))
    ensures !IsNaN(a) && !IsNaN(b) && RealBelow(a, b) ==> Canon(Real(a)) != Canon(Real(b))
  {
  }

  predicate MatchesAny(actual: Value, values: seq<Value>)
    requires forall i :: 0 <= i < |values| ==> !CrossNumeric(actual, values[i])
  {
    exists i :: 0 <= i < |values| && CompareValues(actual, values[i]) == Some(Equal)
  }

  /** The values a filter compares with never meet an integer with a real. */
  predicate Unmixed(f: Filter, v: Value) {
    !CrossNumeric(v, f.value) && (f.list.Some? ==> forall i :: 0 <= i < |f.list.value| ==> !CrossNumeric(v, f.list.value[i]))
  }

  predicate Matches(f: Filter, actual: Value)
    requires Unmixed(f, actual)
  {
    if f.op.OpIn? then f.list.Some? && MatchesAny(actual, f.list.value) else EvalOp(actual, f.op, f.value)
  }

  /** A filter as a whole: one comparison, or membership in its list. */
  lemma MatchesMeets(f: Filter, v: Value)
    requires Unmixed(f, v)
    ensures !f.op.OpIn? ==> (Matches(f, v) <==> Meets(v, f.op, f.value))
    ensures f.op.OpIn? ==>
      (Matches(f, v) <==> f.list.Some? && exists i :: 0 <= i < |f.list.value| && Canon(v) == Canon(f.list.value[i]))
    ensures v.Integer? && f.value.Integer? ==>
      && (f.op.OpLt? ==> (Matches(f, v) <==> v.i < f.value.i)) && (f.op.OpLe? ==> (Matches(f, v) <==> v.i <= f.value.i))
      && (f.op.OpGt? ==> (Matches(f, v) <==> v.i > f.value.i)) && (f.op.OpGe? ==> (Matches(f, v) <==> v.i >= f.value.i))
      && (f.op.OpEq? ==> (Matches(f, v) <==> v.i == f.value.i)) && (f.op.OpNe? ==> (Matches(f, v) <==> v.i != f.value.i))
  {
    if f.op.OpIn? {
      if f.list.Some? { InMeans(v, f.list.value); }
    } else {
      EvalMeets(v, f.op, f.value);
      if v.Integer? && f.value.Integer? { IntegerOperators(v.i, f.value.i); }
    }
  }

  // ----- comparing raw bytes; none means the value has to be decoded -----

  function EvalRaw(raw: seq<Byte>, op: FilterOp, expected: Value): Option<bool> {
    if op.OpIn? || raw == [] then None
    else if op.OpIsNull? then Some(raw[0] == TAG_NULL)
    else if op.OpIsNotNull? then Some(raw[0] != TAG_NULL)
    else if raw[0] == TAG_TEXT && expected.Text? && op.OpEq? then
      if |raw| < 5 then None
      else
        var len := Field(raw, 1, 4);
        if len != |expected.chars| then Some(false)
        else if |raw| < 5 + len then None
        else Some(raw[5..5 + len] == expected.chars)
    else if raw[0] == TAG_INTEGER && expected.Integer? then
      if |raw| < 9 then None else Some(Satisfies(op, Order(RawInteger(raw), expected.i)))
    else None
  }

  function RawInteger(raw: seq<Byte>): Int64
    requires |raw| >= 9
  {
    FieldBound(raw, 1, 8);
    PowValues();
    Signed(Field(raw, 1, 8))
  }

  /** The list form: gives up at the first element of another type. */
  function RawIn(raw: seq<Byte>, values: seq<Value>): Option<bool> {
    if raw == [] || values == [] then Some(false)
    else if raw[0] == TAG_INTEGER then if |raw| < 9 then None else IntegerIn(RawInteger(raw), values)
    else if raw[0] == TAG_TEXT then
      match Sized(raw) case None => None case Some(chars) => TextIn(chars, values)
    else None
  }

  function IntegerIn(actual: Int64, values: seq<Value>): Option<bool> {
    if values == [] then Some(false)
    else if !values[0].Integer? then None
    else if values[0].i == actual then Some(true)
    else IntegerIn(actual, values[1..])
  }

  function TextIn(actual: seq<Byte>, values: seq<Value>): Option<bool> {
    if values == [] then Some(false)
    else if !values[0].Text? then None
    else if values[0].chars == actual then Some(true)
    else TextIn(actual, values[1..])
  }

  function EvalRawFull(raw: seq<Byte>, f: Filter): Option<bool> {
    if f.op.OpIn? then (if f.list.Some? then RawIn(raw, f.list.value) else Some(false))
    else EvalRaw(raw, f.op, f.value)
  }

  method EvalFilterRawIn(raw: seq<Byte>, values: seq<Value>) returns (r: Option<bool>)
    ensures r == RawIn(raw, values)
  {
    if raw == [] || values == [] { return Some(false); }
    if raw[0] == TAG_INTEGER {
      if |raw| < 9 { return None; }
      var actual := RawInteger(raw);
      assert values[0..] == values;
      for i := 0 to |values|
        invariant IntegerIn(actual, values) == IntegerIn(actual, values[i..])
      {
        CutAround(values, i);
        if !values[i].Integer? { return None; }
        if values[i].i == actual { return Some(true); }
      }
      return Some(false);
    }
    if raw[0] == TAG_TEXT {
      var actual := Sized(raw);
      if actual.None? { return None; }
      assert values[0..] == values;
      for i := 0 to |values|
        invariant TextIn(actual.value, values) == TextIn(actual.value, values[i..])
      {
        CutAround(values, i);
        if !values[i].Text? { return None; }
        if values[i].chars == actual.value { return Some(true); }
      }
      return Some(false);
    }
    return None;
  }

  // ----- raw and decoded agree -----

  lemma OrderEqual(a: seq<Byte>, b: seq<Byte>)
    ensures ByteOrder(a, b) == Equal <==> a == b
  {
    LexIrreflexive(a);
  }

  lemma {:induction false} IntegerInAgrees(a: Int64, values: seq<Value>)
    requires forall i :: 0 <= i < |values| ==> !CrossNumeric(Integer(a), values[i])
    ensures IntegerIn(a, values).Some? ==> IntegerIn(a, values).value == MatchesAny(Integer(a), values)
  {
    if values != [] && values[0].Integer? {
      IntegerInAgrees(a, values[1..]);
      AnyStep(Integer(a), values);
    }
  }

  lemma {:induction false} TextInAgrees(a: seq<Byte>, values: seq<Value>)
    ensures TextIn(a, values).Some? ==> TextIn(a, values).value == MatchesAny(Text(a), values)
  {
    if values != [] && values[0].Text? {
      OrderEqual(a, values[0].chars);
      TextInAgrees(a, values[1..]);
      AnyStep(Text(a), values);
    }
  }

  lemma AnyStep(v: Value, values: seq<Value>)
    requires values != [] && forall i :: 0 <= i < |values| ==> !CrossNumeric(v, values[i])
    ensures MatchesAny(v, values) <==> CompareValues(v, values[0]) == Some(Equal) || MatchesAny(v, values[1..])
  {
    if MatchesAny(v, values) && CompareValues(v, values[0]) != Some(Equal) {
      var i :| 0 <= i < |values| && CompareValues(v, values[i]) == Some(Equal);
      assert values[1..][i - 1] == values[i];
    }
  }

  /** The fields of an encoded value, as the raw paths read them. */
  lemma RawFields(v: Value)
    requires ValueOk(v)
    ensures var raw := EncodeValue(v);
            && (v.Integer? ==> raw[0] == TAG_INTEGER && |raw| == 9 && RawInteger(raw) == v.i)
            && (v.Text? ==> raw[0] == TAG_TEXT && Sized(raw) == Some(v.chars))
            && (v.Null? <==> raw[0] == TAG_NULL)
            && (raw[0] == TAG_INTEGER ==> v.Integer?) && (raw[0] == TAG_TEXT ==> v.Text?)
  {
    ValueRoundTrip(v, []);
    assert EncodeValue(v) + [] == EncodeValue(v);
    PowValues();
    if v.Integer? {
      WordReads(TAG_INTEGER, Unsigned(v.i), []);
      assert [TAG_INTEGER as Byte] + Le(Unsigned(v.i), 8) + [] == EncodeValue(v);
      SignedBack(v.i);
    }
  }

  lemma SignedBack(i: Int64)
    ensures Signed(Unsigned(i)) == i
  {
  }

  /** Whenever a raw comparison of a column's bytes decides, it decides as the decoded value would. */
  lemma RawAgrees(v: Value, f: Filter)
    requires ValueOk(v) && Unmixed(f, v)
    ensures EvalRawFull(EncodeValue(v), f).Some? ==> EvalRawFull(EncodeValue(v), f).value == Matches(f, v)
  {
    RawFields(v);
    var raw := EncodeValue(v);
    if f.op.OpIn? {
      if f.list.Some? && raw[0] == TAG_INTEGER { IntegerInAgrees(v.i, f.list.value); }
      if f.list.Some? && raw[0] == TAG_TEXT { TextInAgrees(v.chars, f.list.value); }
    } else if raw[0] == TAG_TEXT && f.value.Text? {
      OrderEqual(v.chars, f.value.chars);
    }
  }

  // ----- a filter on a row -----

  /** The value a filter sees: what reading the column gives, null for nothing. */
  function FilterValue(cols: seq<ColumnDef>, rowid: Word64, data: seq<Byte>, column: string): Value {
    match RowGet(cols, rowid, data, column) case Some(v) => v case None => Null
  }

  function ValueOr(stored: Option<Value>, fallback: Option<Value>): Value {
    if stored.Some? then stored.value else if fallback.Some? then fallback.value else Null
  }

  /**
   * Evaluates a filter on the bytes of a row: the rowid, or raw bytes when they decide, else
   * the decoded value or the default.
   */
  method FilterMatchesRow(table: TableMeta, f: Filter, rowid: Word64, data: seq<Byte>, ghost row: seq<Col>) returns (r: bool)
    requires table.Aligned() && RowFits(rowid, row) && Ascend(row) && data == Encoded(rowid, row)
    requires Unmixed(f, FilterValue(table.columns, rowid, data, f.column))
    ensures r == Matches(f, FilterValue(table.columns, rowid, data, f.column))
    ensures var v := FilterValue(table.columns, rowid, data, f.column);
            if f.op.OpIn? then r <==> f.list.Some? && exists i :: 0 <= i < |f.list.value| && Canon(v) == Canon(f.list.value[i])
            else r <==> Meets(v, f.op, f.value)
    ensures var v := FilterValue(table.columns, rowid, data, f.column);
            v.Integer? && f.value.Integer? ==>
            && (f.op.OpLt? ==> (r <==> v.i < f.value.i)) && (f.op.OpLe? ==> (r <==> v.i <= f.value.i))
            && (f.op.OpGt? ==> (r <==> v.i > f.value.i)) && (f.op.OpGe? ==> (r <==> v.i >= f.value.i))
  {
    MatchesMeets(f, FilterValue(table.columns, rowid, data, f.column));
    if f.column == AUTO_ID { return Matches(f, Integer(Signed(rowid))); }
    FilterValueAt(table.Cols(), rowid, row, f.column);
    if f.column !in table.colNameToId { return Matches(f, Null); }
    var id := table.colNameToId[f.column];
    r := MatchStored(f, data, id, table.colDefs[id].fallback, rowid, row);
  }

  lemma FilterValueAt(s: Columns, rowid: Word64, row: seq<Col>, column: string)
    requires Bounded(s) && Sound(s) && RowFits(rowid, row) && Ascend(row) && column != AUTO_ID
    ensures FilterValue(s.defs, rowid, Encoded(rowid, row), column) ==
      if column in s.ids then ValueOr(Lookup(row, s.ids[column]), s.defs[s.ids[column]].fallback) else Null
  {
    SoundNames(s, column);
    if column in s.ids { GetsUnderSlot(s.defs, rowid, row, column, s.ids[column]); }
  }

  method MatchStored(f: Filter, data: seq<Byte>, id: nat, fallback: Option<Value>, ghost rowid: nat, ghost row: seq<Col>) returns (r: bool)
    requires RowFits(rowid, row) && Ascend(row) && data == Encoded(rowid, row)
    requires Unmixed(f, ValueOr(Lookup(row, id), fallback))
    ensures r == Matches(f, ValueOr(Lookup(row, id), fallback))
  {
    ExtractAgrees(rowid, row, id);
    var raw := ExtractColumnRaw(data, id);
    if raw.Some? && raw.value.Some? {
      LookupOk(row, id);
      RawAgrees(Lookup(row, id).value, f);
      var decided := EvalRawFull(raw.value.value, f);
      if decided.Some? { return decided.value; }
    }
    var stored := ExtractColumn(data, id);
    if stored.Some? && stored.value.Some? { return Matches(f, stored.value.value); }
    return Matches(f, if fallback.Some? then fallback.value else Null);
  }

  lemma {:induction false} LookupOk(row: seq<Col>, id: nat)
    requires forall i :: 0 <= i < |row| ==> ValueOk(row[i].v)
    ensures Lookup(row, id).Some? ==> ValueOk(Lookup(row, id).value)
  {
    if row != [] { LookupOk(row[1..], id); }
  }
}
