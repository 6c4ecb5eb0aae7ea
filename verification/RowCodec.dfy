/** Rows of typed columns: encoding, decoding, lookups and patches. */
module RowCodec {
  import opened Seqs
  import opened Bytes
  import opened Values
  import opened ValueCodec
  import opened RowLayout
  import opened Store

  datatype Col = Col(id: nat, v: Value)
  datatype DecodedRow = DecodedRow(rowid: nat, cols: seq<Col>)

  ghost predicate Distinct(cols: seq<Col>) {
    forall i, j :: 0 <= i < j < |cols| ==> cols[i].id != cols[j].id
  }

  ghost predicate Ascend(cols: seq<Col>) {
    forall i, j :: 0 <= i < j < |cols| ==> cols[i].id < cols[j].id
  }

  predicate ColsOk(cols: seq<Col>) {
    |cols| < U16 && forall i :: 0 <= i < |cols| ==> cols[i].id < U16 && ValueOk(cols[i].v)
  }

  function Parts(cols: seq<Col>): (ps: seq<Part>)
    ensures |ps| == |cols| && forall i :: 0 <= i < |cols| ==> ps[i] == Part(cols[i].id, EncodeValue(cols[i].v))
  {
    seq(|cols|, i requires 0 <= i < |cols| => Part(cols[i].id, EncodeValue(cols[i].v)))
  }

  /** A row whose columns are in id order. */
  function Encoded(rowid: nat, cols: seq<Col>): seq<Byte> {
    Laid(rowid, Parts(cols))
  }

  /** A row the layout can hold. */
  ghost predicate RowFits(rowid: nat, cols: seq<Col>) {
    rowid < Pow256(8) && ColsOk(cols) && OffsetsFit(Parts(cols))
  }

  // ----- operations, on any bytes: the outer None is an error -----

  function DecodeCols(data: seq<Byte>, n: nat, i: nat): Option<seq<Col>>
    requires i <= n && DIR_START + 4 * n <= |data|
    decreases n - i
  {
    if i == n then Some([])
    else
      var start := ValueStart(data, n, i);
      if start > |data| then None
      else
        var d := DecodeValue(data[start..]);
        if d.None? then None
        else Prefixed([Col(Field(data, DIR_START + 4 * i, 2), d.value.v)], DecodeCols(data, n, i + 1))
  }

  function Prefixed(cols: seq<Col>, rest: Option<seq<Col>>): Option<seq<Col>> {
    if rest.None? then None else Some(cols + rest.value)
  }

  function Decode(data: seq<Byte>): Option<DecodedRow> {
    if |data| < DIR_START || DIR_START + 4 * NumCols(data) > |data| then None
    else
      match DecodeCols(data, NumCols(data), 0)
      case None => None
      case Some(cols) => Some(DecodedRow(Field(data, 0, 8), cols))
  }

  function ExtractRaw(data: seq<Byte>, target: nat): Option<Option<seq<Byte>>> {
    match Locate(data, target)
    case BadRow => None
    case NoColumn => Some(None)
    case Spot(_, start, end) => if start <= end <= |data| then Some(Some(data[start..end])) else None
  }

  function Extract(data: seq<Byte>, target: nat): Option<Option<Value>> {
    match Locate(data, target)
    case BadRow => None
    case NoColumn => Some(None)
    case Spot(_, start, _) => if start <= |data| then ValueAt(data[start..]) else None
  }

  function ValueAt(data: seq<Byte>): Option<Option<Value>> {
    match DecodeValue(data)
    case None => None
    case Some(d) => Some(Some(d.v))
  }

  function Patch(data: seq<Byte>, target: nat, v: Value): Option<seq<Byte>> {
    match Locate(data, target)
    case BadRow => None
    case NoColumn => Some(data)
    case Spot(i, start, end) =>
      if start <= end <= |data| then Overwrite(data, NumCols(data), i, start, end, EncodeValue(v)) else None
  }

  function PatchMulti(data: seq<Byte>, patches: seq<Col>): Option<seq<Byte>>
    decreases |patches|
  {
    if patches == [] then Some(data)
    else
      match Patch(data, patches[0].id, patches[0].v)
      case None => None
      case Some(next) => PatchMulti(next, patches[1..])
  }

  /** Columns into id order; the sort is stable. */
  function Place(c: Col, cols: seq<Col>): (s: seq<Col>)
    ensures |s| == |cols| + 1
  {
    if cols == [] || c.id < cols[0].id then [c] + cols else [cols[0]] + Place(c, cols[1..])
  }

  function Arrange(cols: seq<Col>): (s: seq<Col>)
    ensures |s| == |cols|
  {
    if cols == [] then [] else Place(cols[|cols| - 1], Arrange(cols[..|cols| - 1]))
  }

  // ----- the same as loops -----

  method EncodeRow(rowid: nat, columns: seq<Col>) returns (buf: seq<Byte>)
    ensures buf == Encoded(rowid, Arrange(columns))
  {
    buf := LayOut(rowid, Parts(Arrange(columns)));
  }

  method DecodeRow(data: seq<Byte>) returns (r: Option<DecodedRow>)
    ensures r == Decode(data)
  {
    if |data| < DIR_START { return None; }
    var n := NumCols(data);
    if DIR_START + 4 * n > |data| { return None; }
    var cols: seq<Col> := [];
    NothingBefore(DecodeCols(data, n, 0));
    for i := 0 to n
      invariant DecodeCols(data, n, 0) == Prefixed(cols, DecodeCols(data, n, i))
    {
      var start := ValueStart(data, n, i);
      if start > |data| { return None; }
      var d := DecodeValue(data[start..]);
      if d.None? { return None; }
      var c := Col(Field(data, DIR_START + 4 * i, 2), d.value.v);
      PrefixedTwice(cols, c, DecodeCols(data, n, i + 1));
      cols := cols + [c];
    }
    assert cols + [] == cols;
    return Some(DecodedRow(Field(data, 0, 8), cols));
  }

  lemma NothingBefore(rest: Option<seq<Col>>)
    ensures Prefixed([], rest) == rest
  {
    if rest.Some? { assert [] + rest.value == rest.value; }
  }

  lemma PrefixedTwice(cols: seq<Col>, c: Col, rest: Option<seq<Col>>)
    ensures Prefixed(cols, Prefixed([c], rest)) == Prefixed(cols + [c], rest)
  {
    if rest.Some? { Assoc(cols, [c], rest.value); }
  }

  method ExtractColumnRaw(data: seq<Byte>, target: nat) returns (r: Option<Option<seq<Byte>>>)
    ensures r == ExtractRaw(data, target)
  {
    var s := LocateColumn(data, target);
    match s
    case BadRow => return None;
    case NoColumn => return Some(None);
    case Spot(_, start, end) => return if start <= end <= |data| then Some(Some(data[start..end])) else None;
  }

  method ExtractColumn(data: seq<Byte>, target: nat) returns (r: Option<Option<Value>>)
    ensures r == Extract(data, target)
  {
    var s := LocateColumn(data, target);
    match s
    case BadRow => return None;
    case NoColumn => return Some(None);
    case Spot(_, start, _) => return if start <= |data| then ValueAt(data[start..]) else None;
  }

  method PatchRow(data: seq<Byte>, target: nat, v: Value) returns (r: Option<seq<Byte>>)
    ensures r == Patch(data, target, v)
  {
    var s := LocateColumn(data, target);
    match s
    case BadRow => return None;
    case NoColumn => return Some(data);
    case Spot(i, start, end) =>
      if !(start <= end <= |data|) { return None; }
      r := OverwriteValue(data, NumCols(data), i, start, end, EncodeValue(v));
  }

  method PatchRowMulti(data: seq<Byte>, patches: seq<Col>) returns (r: Option<seq<Byte>>)
    ensures r == PatchMulti(data, patches)
  {
    var result := data;
    assert patches[0..] == patches;
    for i := 0 to |patches|
      invariant PatchMulti(result, patches[i..]) == PatchMulti(data, patches)
    {
      CutAround(patches, i);
      var next := PatchRow(result, patches[i].id, patches[i].v);
      if next.None? { return None; }
      result := next.value;
    }
    return Some(result);
  }

  // ----- sorting -----

  lemma {:induction false} PlaceSame(c: Col, cols: seq<Col>)
    ensures forall d :: d in Place(c, cols) <==> d == c || d in cols
  {
    if cols != [] && c.id >= cols[0].id {
      PlaceSame(c, cols[1..]);
      assert cols == [cols[0]] + cols[1..];
    }
  }

  lemma {:induction false} PlaceAscends(c: Col, cols: seq<Col>)
    requires Ascend(cols) && forall d :: d in cols ==> d.id != c.id
    ensures Ascend(Place(c, cols))
  {
    if cols != [] && c.id >= cols[0].id {
      assert cols[0] in cols && forall d :: d in cols[1..] ==> d in cols;
      PlaceAscends(c, cols[1..]);
      PlaceSame(c, cols[1..]);
      FrontAscends(cols[0], Place(c, cols[1..]));
    }
  }

  lemma FrontAscends(c: Col, cols: seq<Col>)
    requires Ascend(cols) && forall d :: d in cols ==> c.id < d.id
    ensures Ascend([c] + cols)
  {
  }

  /** Sorting keeps the columns and, when their ids differ, puts them in strict order. */
  lemma {:induction false} ArrangeSame(cols: seq<Col>)
    ensures forall d :: d in Arrange(cols) <==> d in cols
    ensures Distinct(cols) ==> Ascend(Arrange(cols))
  {
    if cols != [] {
      var last := |cols| - 1;
      ArrangeSame(cols[..last]);
      PlaceSame(cols[last], Arrange(cols[..last]));
      assert cols == cols[..last] + [cols[last]];
      if Distinct(cols) {
        assert forall d :: d in cols[..last] ==> d.id != cols[last].id;
        PlaceAscends(cols[last], Arrange(cols[..last]));
      }
    }
  }

  // ----- decoding inverts encoding -----

  /** Entry `i` of the directory decodes to the column. */
  predicate DecodesAt(data: seq<Byte>, n: nat, i: nat, c: Col) {
    && i < n && DIR_START + 4 * n <= |data| && ValueStart(data, n, i) <= |data|
    && DecodeValue(data[ValueStart(data, n, i)..]) == Some(Decoded(c.v, |EncodeValue(c.v)|))
    && Field(data, DIR_START + 4 * i, 2) == c.id
  }

  lemma SpotDecodes(data: seq<Byte>, n: nat, i: nat, c: Col, rest: seq<Byte>)
    requires i < n && DIR_START + 4 * n <= |data| && ValueStart(data, n, i) <= |data| && ValueOk(c.v)
    requires data[ValueStart(data, n, i)..] == EncodeValue(c.v) + rest && Field(data, DIR_START + 4 * i, 2) == c.id
    ensures DecodesAt(data, n, i, c)
  {
    ValueRoundTrip(c.v, rest);
  }

  lemma DecodeAt(rowid: nat, cols: seq<Col>, i: nat)
    requires i < |cols| && RowFits(rowid, cols)
    ensures DecodesAt(Encoded(rowid, cols), |cols|, i, cols[i])
  {
    var ps := Parts(cols);
    assert cols[i].id < U16 && ValueOk(cols[i].v);
    Located(rowid, ps, i);
    SpotBytes(rowid, ps, i);
    EntryAt(rowid, ps, i);
    SpotDecodes(Laid(rowid, ps), |ps|, i, cols[i], Body(ps[i + 1..]));
  }

  lemma {:induction false} DecodeFrom(data: seq<Byte>, cols: seq<Col>, i: nat)
    requires i <= |cols| && DIR_START + 4 * |cols| <= |data|
    requires forall j :: i <= j < |cols| ==> DecodesAt(data, |cols|, j, cols[j])
    ensures DecodeCols(data, |cols|, i) == Some(cols[i..])
    decreases |cols| - i
  {
    if i < |cols| {
      DecodeFrom(data, cols, i + 1);
      assert DecodesAt(data, |cols|, i, cols[i]);
      assert cols[i..] == [cols[i]] + cols[i + 1..];
    }
  }

  lemma DecodeWhole(rowid: nat, cols: seq<Col>)
    requires RowFits(rowid, cols)
    ensures Decode(Encoded(rowid, cols)) == Some(DecodedRow(rowid, cols))
  {
    Header(rowid, Parts(cols));
    forall j | 0 <= j < |cols| ensures DecodesAt(Encoded(rowid, cols), |cols|, j, cols[j]) {
      DecodeAt(rowid, cols, j);
    }
    DecodeFrom(Encoded(rowid, cols), cols, 0);
    assert cols[0..] == cols;
  }

  /** Decoding an encoded row gives its rowid and its columns in id order. */
  lemma DecodeInvertsEncode(rowid: nat, columns: seq<Col>)
    requires Distinct(columns) && RowFits(rowid, Arrange(columns))
    ensures Decode(Encoded(rowid, Arrange(columns))) == Some(DecodedRow(rowid, Arrange(columns)))
    ensures Ascend(Arrange(columns)) && forall c :: c in Arrange(columns) <==> c in columns
  {
    ArrangeSame(columns);
    DecodeWhole(rowid, Arrange(columns));
  }

  // ----- lookups -----

  /** The value a row has in a column. */
  function Lookup(cols: seq<Col>, id: nat): Option<Value> {
    if cols == [] then None else if cols[0].id == id then Some(cols[0].v) else Lookup(cols[1..], id)
  }

  lemma {:induction false} LookupAt(cols: seq<Col>, i: nat)
    requires i < |cols| && Ascend(cols)
    ensures Lookup(cols, cols[i].id) == Some(cols[i].v)
  {
    if i > 0 { LookupAt(cols[1..], i - 1); }
  }

  lemma {:induction false} LookupNone(cols: seq<Col>, id: nat)
    requires forall i :: 0 <= i < |cols| ==> cols[i].id != id
    ensures Lookup(cols, id) == None
  {
    if cols != [] { LookupNone(cols[1..], id); }
  }

  lemma RisingParts(cols: seq<Col>)
    requires Ascend(cols) && ColsOk(cols)
    ensures Rising(Parts(cols)) && PartsOk(Parts(cols))
  {
  }

  lemma SpotExtracts(data: seq<Byte>, target: nat, s: Spot, v: Value, rest: seq<Byte>)
    requires Locate(data, target) == s && s.Spot? && s.start <= s.end <= |data| && ValueOk(v)
    requires data[s.start..s.end] == EncodeValue(v) && data[s.start..] == EncodeValue(v) + rest
    ensures Extract(data, target) == Some(Some(v)) && ExtractRaw(data, target) == Some(Some(EncodeValue(v)))
  {
    ValueRoundTrip(v, rest);
  }

  lemma SpotPatches(data: seq<Byte>, target: nat, s: Spot, v: Value, n: nat)
    requires Locate(data, target) == s && s.Spot? && s.start <= s.end <= |data| && NumCols(data) == n
    ensures Patch(data, target, v) == Overwrite(data, n, s.i, s.start, s.end, EncodeValue(v))
  {
  }

  /** Both lookups give what decoding gives: the column's value, or that it is absent. */
  lemma ExtractAgrees(rowid: nat, cols: seq<Col>, target: nat)
    requires RowFits(rowid, cols) && Ascend(cols)
    ensures Extract(Encoded(rowid, cols), target) == Some(Lookup(cols, target))
    ensures ExtractRaw(Encoded(rowid, cols), target) ==
      Some(if Lookup(cols, target).None? then None else Some(EncodeValue(Lookup(cols, target).value)))
  {
    var ps := Parts(cols);
    RisingParts(cols);
    var i := LocateFinds(rowid, ps, target);
    if i < |cols| {
      SpotBytes(rowid, ps, i);
      SpotExtracts(Encoded(rowid, cols), target, SpotOf(ps, i), cols[i].v, Body(ps[i + 1..]));
      LookupAt(cols, i);
    } else {
      assert forall j :: 0 <= j < |cols| ==> ps[j].id == cols[j].id;
      LookupNone(cols, target);
    }
  }

  /** The last column is found at its value exactly when its offset fits the directory's 16 bits. */
  lemma LastColumnNeedsFit(rowid: nat, cols: seq<Col>)
    requires ColsOk(cols) && cols != []
    ensures var n := |cols|; var data := Encoded(rowid, cols); var start := ValueStart(data, n, n - 1);
            start <= |data| && (data[start..] == EncodeValue(cols[n - 1].v) <==> Offset(Parts(cols), n - 1) < U16)
  {
    LastNeedsFit(rowid, Parts(cols));
  }

  // ----- patching -----

  /** The row with one column changed; a column the row does not have changes nothing. */
  function SetCol(cols: seq<Col>, c: Col): (s: seq<Col>)
    ensures |s| == |cols| && forall i :: 0 <= i < |cols| ==> s[i] == if cols[i].id == c.id then c else cols[i]
  {
    seq(|cols|, i requires 0 <= i < |cols| => if cols[i].id == c.id then c else cols[i])
  }

  /**
   * Patching the bytes of a row gives, byte for byte, the encoding of the changed row; it
   * fails exactly when a value of the changed row would start past 16 bits.
   */
  lemma PatchIsEncode(rowid: nat, cols: seq<Col>, c: Col)
    requires RowFits(rowid, cols) && Ascend(cols)
    ensures Patch(Encoded(rowid, cols), c.id, c.v) ==
      if OffsetsFit(Parts(SetCol(cols, c))) then Some(Encoded(rowid, SetCol(cols, c))) else None
  {
    var ps, part := Parts(cols), Part(c.id, EncodeValue(c.v));
    RisingParts(cols);
    var i := LocateFinds(rowid, ps, c.id);
    if i < |cols| {
      SetParts(cols, c, i);
      PatchRelays(rowid, ps, i, c.v, part);
    } else {
      assert forall j :: 0 <= j < |cols| ==> ps[j].id == cols[j].id;
      assert SetCol(cols, c) == cols;
    }
  }

  lemma PatchRelays(rowid: nat, ps: seq<Part>, i: nat, v: Value, part: Part)
    requires i < |ps| && PartsOk(ps) && OffsetsFit(ps) && rowid < Pow256(8)
    requires part == Part(ps[i].id, EncodeValue(v)) && Locate(Laid(rowid, ps), part.id) == SpotOf(ps, i)
    ensures Patch(Laid(rowid, ps), part.id, v) ==
      if OffsetsFit(ps[i := part]) then Some(Laid(rowid, ps[i := part])) else None
  {
    Header(rowid, ps);
    OverwriteRelays(rowid, ps, i, part);
    SpotPatches(Laid(rowid, ps), part.id, SpotOf(ps, i), v, |ps|);
  }

  lemma SetParts(cols: seq<Col>, c: Col, i: nat)
    requires i < |cols| && Ascend(cols) && cols[i].id == c.id
    ensures Parts(SetCol(cols, c)) == Parts(cols)[i := Part(c.id, EncodeValue(c.v))]
  {
    assert SetCol(cols, c) == cols[i := c];
  }

  /** The row after several patches in turn. */
  function SetCols(cols: seq<Col>, patches: seq<Col>): (s: seq<Col>)
    ensures |s| == |cols|
    decreases |patches|
  {
    if patches == [] then cols else SetCols(SetCol(cols, patches[0]), patches[1..])
  }

  /** Every row on the way has offsets that fit. */
  predicate StepsFit(cols: seq<Col>, patches: seq<Col>)
    decreases |patches|
  {
    OffsetsFit(Parts(cols)) && (patches == [] || StepsFit(SetCol(cols, patches[0]), patches[1..]))
  }

  /** Patches in turn give the encoding of the row with all of them applied, or fail on the way. */
  lemma {:induction false} PatchMultiIsEncode(rowid: nat, cols: seq<Col>, patches: seq<Col>)
    requires RowFits(rowid, cols) && Ascend(cols) && forall i :: 0 <= i < |patches| ==> ValueOk(patches[i].v)
    ensures PatchMulti(Encoded(rowid, cols), patches) ==
      if StepsFit(cols, patches) then Some(Encoded(rowid, SetCols(cols, patches))) else None
    decreases |patches|
  {
    if patches != [] {
      PatchIsEncode(rowid, cols, patches[0]);
      if OffsetsFit(Parts(SetCol(cols, patches[0]))) {
        PatchMultiIsEncode(rowid, SetCol(cols, patches[0]), patches[1..]);
      }
    }
  }

  /** What a patched row reads as: the last patch of a column it has, else its old value. */
  lemma {:induction false} PatchedLookup(cols: seq<Col>, c: Col, id: nat)
    ensures Lookup(SetCol(cols, c), id) ==
      if id == c.id && Lookup(cols, id).Some? then Some(c.v) else Lookup(cols, id)
  {
    if cols != [] {
      PatchedLookup(cols[1..], c, id);
      assert SetCol(cols, c)[1..] == SetCol(cols[1..], c);
    }
  }

  /** Whatever the bytes, patching leaves the rowid alone. */
  lemma PatchKeepsRowid(data: seq<Byte>, target: nat, v: Value)
    ensures var r := Patch(data, target, v); r.Some? ==> |r.value| >= 8 && r.value[..8] == data[..8]
  {
    var s := Locate(data, target);
    if s.Spot? && s.start <= s.end <= |data| {
      OverwriteKeepsFront(data, NumCols(data), s.i, s.start, s.end, EncodeValue(v));
    }
  }
}
