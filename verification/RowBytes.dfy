/** Values and rows as bytes: where each byte lies, and which bytes are read as what. */
module RowBytes {
  import opened Bytes
  import opened Values
  import opened ValueCodec
  import opened RowLayout
  import opened RowCodec
  import opened Store

  // ----- single values -----

  /** The low byte comes first. */
  lemma {:induction false} LeAt(n: nat, k: nat, i: nat)
    requires i < k
    ensures Le(n, k)[i] == n / Pow256(i) % 256
  {
    if i > 0 {
      LeAt(n / 256, k - 1, i - 1);
      DivTwice(n, Pow256(i - 1));
    }
  }

  lemma DivTwice(n: nat, p: nat)
    requires p > 0
    ensures n / 256 / p == n / (256 * p)
  {
    var q := n / (256 * p);
    var r := n - q * (256 * p);
    assert n / 256 == q * p + r / 256;
    assert r / 256 < p;
    QuotientIs(n / 256, p, q, r / 256);
  }

  lemma QuotientIs(n: nat, p: nat, q: nat, r: nat)
    requires r < p && n == q * p + r
    ensures n / p == q
  {
    var d := n / p - q;
    assert d * p == r - n % p;
    Multiples(d, p);
  }

  lemma Multiples(d: int, p: nat)
    ensures (d >= 1 ==> d * p >= p) && (d <= -1 ==> d * p <= 0 - p)
  {
  }

  /** The bytes of a value; every nonzero byte is true. */
  predicate WrittenAs(bytes: seq<Byte>, v: Value) {
    ValueOk(v) && (bytes == EncodeValue(v) || (v == Boolean(true) && |bytes| == 2 && bytes[0] == 5 && bytes[1] != 0))
  }

  /** On any bytes: a value of some size is read exactly when the bytes begin with that value written out. */
  lemma DecodesExactly(data: seq<Byte>, v: Value, n: nat)
    ensures DecodeValue(data) == Some(Decoded(v, n)) <==> n <= |data| && WrittenAs(data[..n], v)
  {
    if n <= |data| && WrittenAs(data[..n], v) {
      assert data == data[..n] + data[n..];
      if data[..n] == EncodeValue(v) { ValueRoundTrip(v, data[n..]); }
    }
    if DecodeValue(data) == Some(Decoded(v, n)) { ReadWasWritten(data, v, n); }
  }

  lemma ReadWasWritten(data: seq<Byte>, v: Value, n: nat)
    requires DecodeValue(data) == Some(Decoded(v, n))
    ensures n <= |data| && WrittenAs(data[..n], v)
  {
    match v
    case Text(s) => SizedWritten(data, s, n);
    case Blob(s) => SizedWritten(data, s, n);
    case Integer(i) => WordWritten(data);
    case Real(bits) => WordWritten(data);
    case _ =>
  }

  lemma SizedWritten(data: seq<Byte>, s: seq<Byte>, n: nat)
    requires Sized(data) == Some(s) && n == 5 + |s|
    ensures n <= |data| && |s| < Pow256(4) && data[..n] == [data[0]] + Le(|s|, 4) + s
  {
    FieldBound(data, 1, 4);
    LeInverse(data[1..5]);
    assert data[..n] == [data[0]] + data[1..5] + data[5..n];
  }

  lemma WordWritten(data: seq<Byte>)
    requires |data| >= 9
    ensures data[..9] == [data[0]] + Le(Field(data, 1, 8), 8)
  {
    LeInverse(data[1..9]);
  }

  /** What each kind of value begins with and goes on with. */
  lemma ValueBytes(v: Value)
    ensures var s := EncodeValue(v);
            match v
            case Null => s == [0]
            case Text(c) => |s| == 5 + |c| && s[0] == 1 && s[5..] == c && (|c| < 0x1_0000_0000 ==> Spells(s, 1, |c|, 4))
            case Integer(i) => |s| == 9 && s[0] == 2 && Spells(s, 1, if i < 0 then i + 0x1_0000_0000_0000_0000 else i, 8)
            case Real(bits) => |s| == 9 && s[0] == 3 && Spells(s, 1, bits, 8)
            case Blob(b) => |s| == 5 + |b| && s[0] == 4 && s[5..] == b && (|b| < 0x1_0000_0000 ==> Spells(s, 1, |b|, 4))
            case Boolean(b) => s == [5, if b then 1 else 0]
  {
    match v
    case Text(c) => SizedBytes(1, c);
    case Blob(b) => SizedBytes(4, b);
    case Integer(i) => WordBytes(2, Unsigned(i));
    case Real(bits) => WordBytes(3, bits);
    case _ =>
  }

  /** `k` bytes from `at` on spell the number, low byte first. */
  predicate Spells(s: seq<Byte>, at: nat, n: nat, k: nat) {
    at + k <= |s| && forall i: nat :: i < k ==> s[at + i] == n / Pow256(i) % 256
  }

  lemma SizedBytes(tag: Byte, c: seq<Byte>)
    ensures var s := [tag] + Le(|c|, 4) + c; |s| == 5 + |c| && s[0] == tag && s[5..] == c && Spells(s, 1, |c|, 4)
  {
    SpeltAt([tag], |c|, 4, c);
  }

  lemma WordBytes(tag: Byte, n: nat)
    ensures var s := [tag] + Le(n, 8); |s| == 9 && s[0] == tag && Spells(s, 1, n, 8)
  {
    SpeltAt([tag], n, 8, []);
    assert [tag] + Le(n, 8) + [] == [tag] + Le(n, 8);
  }

  lemma SpeltAt(a: seq<Byte>, n: nat, k: nat, b: seq<Byte>)
    ensures Spells(a + Le(n, k) + b, |a|, n, k)
  {
    forall i: nat | i < k ensures (a + Le(n, k) + b)[|a| + i] == n / Pow256(i) % 256 { LeAt(n, k, i); }
  }

  // ----- whole rows -----

  /**
   * Where everything lies: the rowid, the number of columns, for each column its id and where its
   * value starts behind the directory; the values follow each other without gaps to the end.
   */
  lemma RowLies(rowid: nat, cols: seq<Col>, i: nat)
    requires i < |cols|
    ensures var data, n := Encoded(rowid, cols), |cols|;
            var off := Offset(Parts(cols), i);
            && Spells(data, 0, rowid, 8) && Spells(data, 8, n, 2)
            && Spells(data, 10 + 4 * i, cols[i].id, 2) && Spells(data, 12 + 4 * i, off, 2)
            && 10 + 4 * n + off + |EncodeValue(cols[i].v)| <= |data|
            && data[10 + 4 * n + off..10 + 4 * n + off + |EncodeValue(cols[i].v)|] == EncodeValue(cols[i].v)
            && (i == 0 ==> off == 0)
            && (if i + 1 < n then Offset(Parts(cols), i + 1) == off + |EncodeValue(cols[i].v)|
                else |data| == 10 + 4 * n + off + |EncodeValue(cols[i].v)|)
  {
    var ps := Parts(cols);
    HeadLies(rowid, ps);
    EntryLies(rowid, ps, i);
    ValueLies(rowid, ps, i);
  }

  lemma ValueLies(rowid: nat, ps: seq<Part>, i: nat)
    requires i < |ps|
    ensures var data, at := Laid(rowid, ps), 10 + 4 * |ps| + Offset(ps, i);
            && at + |ps[i].bytes| <= |data| && data[at..at + |ps[i].bytes|] == ps[i].bytes
            && (i == 0 ==> Offset(ps, i) == 0) && Offset(ps, i + 1) == Offset(ps, i) + |ps[i].bytes|
            && (i + 1 == |ps| ==> |data| == at + |ps[i].bytes|)
  {
    SpotBytes(rowid, ps, i);
    BodyCut(ps, i);
    if i + 1 == |ps| { assert ps[..|ps|] == ps; }
  }

  lemma HeadLies(rowid: nat, ps: seq<Part>)
    ensures Spells(Laid(rowid, ps), 0, rowid, 8) && Spells(Laid(rowid, ps), 8, |ps|, 2)
  {
    var rest := Directory(ps, 0) + Body(ps);
    assert Laid(rowid, ps) == [] + Le(rowid, 8) + (Le(|ps|, 2) + rest);
    SpeltAt([], rowid, 8, Le(|ps|, 2) + rest);
    assert Laid(rowid, ps) == Le(rowid, 8) + Le(|ps|, 2) + rest;
    SpeltAt(Le(rowid, 8), |ps|, 2, rest);
  }

  lemma EntryLies(rowid: nat, ps: seq<Part>, i: nat)
    requires i < |ps|
    ensures Spells(Laid(rowid, ps), 10 + 4 * i, ps[i].id, 2) && Spells(Laid(rowid, ps), 12 + 4 * i, Offset(ps, i), 2)
  {
    DirectoryAt(ps, 0, i);
    var data, at, e := Laid(rowid, ps), 10 + 4 * i, Entry(ps[i].id, Offset(ps, i));
    assert data[at..at + 4] == Directory(ps, 0)[4 * i..4 * i + 4];
    SpeltAt([], ps[i].id, 2, Le(Offset(ps, i), 2));
    SpeltAt(Le(ps[i].id, 2), Offset(ps, i), 2, []);
    assert e == [] + Le(ps[i].id, 2) + Le(Offset(ps, i), 2) == Le(ps[i].id, 2) + Le(Offset(ps, i), 2) + [];
    SpellsWithin(data, at, e, 0, ps[i].id);
    SpellsWithin(data, at, e, 2, Offset(ps, i));
  }

  lemma SpellsWithin(data: seq<Byte>, at: nat, e: seq<Byte>, k: nat, n: nat)
    requires at + |e| <= |data| && data[at..at + |e|] == e && Spells(e, k, n, 2)
    ensures Spells(data, at + k, n, 2)
  {
    forall i: nat | i < 2 ensures data[at + k + i] == n / Pow256(i) % 256 {
      assert data[at + k + i] == data[at..at + |e|][k + i];
    }
  }

  /** On any bytes: the directory is there. */
  predicate HasDirectory(data: seq<Byte>) {
    |data| >= 10 && 10 + 4 * NumCols(data) <= |data|
  }

  /** The column of a directory entry: its id, and the value at the place it gives, if one is there. */
  function ColumnOn(data: seq<Byte>, i: nat): Option<Col>
    requires HasDirectory(data) && i < NumCols(data)
  {
    var start := 10 + 4 * NumCols(data) + Field(data, 12 + 4 * i, 2);
    if start > |data| then None
    else match DecodeValue(data[start..]) case None => None case Some(d) => Some(Col(Field(data, 10 + 4 * i, 2), d.v))
  }

  function ColumnsOn(data: seq<Byte>): (cs: seq<Option<Col>>)
    requires HasDirectory(data)
    ensures |cs| == NumCols(data) && forall i :: 0 <= i < |cs| ==> cs[i] == ColumnOn(data, i)
  {
    seq(NumCols(data), i requires 0 <= i < NumCols(data) => ColumnOn(data, i))
  }

  function Collected(cs: seq<Option<Col>>): Option<seq<Col>> {
    if cs == [] then Some([]) else if cs[0].None? then None else Prefixed([cs[0].value], Collected(cs[1..]))
  }

  lemma {:induction false} CollectedExactly(cs: seq<Option<Col>>)
    ensures Collected(cs).Some? <==> forall i :: 0 <= i < |cs| ==> cs[i].Some?
    ensures Collected(cs).Some? ==>
      |Collected(cs).value| == |cs| && forall i :: 0 <= i < |cs| ==> cs[i] == Some(Collected(cs).value[i])
  {
    if cs != [] {
      CollectedExactly(cs[1..]);
      assert cs == [cs[0]] + cs[1..];
    }
  }

  lemma {:induction false} DecodeCollects(data: seq<Byte>, i: nat)
    requires HasDirectory(data) && i <= NumCols(data)
    ensures DecodeCols(data, NumCols(data), i) == Collected(ColumnsOn(data)[i..])
    decreases NumCols(data) - i
  {
    if i < NumCols(data) {
      DecodeCollects(data, i + 1);
      DecodeOne(data, i);
      var cs := ColumnsOn(data)[i..];
      assert cs[1..] == ColumnsOn(data)[i + 1..] && cs[0] == ColumnOn(data, i);
    }
  }

  lemma DecodeOne(data: seq<Byte>, i: nat)
    requires HasDirectory(data) && i < NumCols(data)
    ensures DecodeCols(data, NumCols(data), i) ==
      if ColumnOn(data, i).None? then None
      else Prefixed([ColumnOn(data, i).value], DecodeCols(data, NumCols(data), i + 1))
  {
  }

  /**
   * On any bytes: a row decodes exactly when its directory is whole and every column it lists is
   * readable, and then it has exactly those columns.
   */
  lemma DecodesRowExactly(data: seq<Byte>)
    ensures Decode(data).Some? <==>
      HasDirectory(data) && forall i: nat :: i < NumCols(data) ==> ColumnOn(data, i).Some?
    ensures Decode(data).Some? ==>
      var r := Decode(data).value;
      && r.rowid == Field(data, 0, 8) && |r.cols| == NumCols(data)
      && forall i: nat :: i < |r.cols| ==> ColumnOn(data, i) == Some(r.cols[i])
  {
    if HasDirectory(data) {
      DecodeCollects(data, 0);
      assert ColumnsOn(data)[0..] == ColumnsOn(data);
      CollectedExactly(ColumnsOn(data));
      assert forall i: nat :: i < NumCols(data) ==> ColumnsOn(data)[i] == ColumnOn(data, i);
    }
  }

  /** On any bytes: a lookup in a row that decodes, its ids rising, gives what decoding gives. */
  lemma ExtractIsDecode(data: seq<Byte>, target: nat)
    requires Decode(data).Some? && Ascend(Decode(data).value.cols)
    ensures Extract(data, target) == Some(Lookup(Decode(data).value.cols, target))
  {
    var n, cols := NumCols(data), Decode(data).value.cols;
    DecodesRowExactly(data);
    forall i: nat | i < |cols| ensures EntryId(data, i, cols[i].id) { ColumnId(data, i, cols[i]); }
    SearchOn(data, cols, target, 0, n);
    var p := Search(data, target, 0, n);
    if p.At? {
      ColumnExtracted(data, target, p.i, cols[p.i]);
      LookupAt(cols, p.i);
    } else {
      LookupNone(cols, target);
    }
  }

  predicate EntryId(data: seq<Byte>, i: nat, id: nat) {
    14 + 4 * i <= |data| && Field(data, 10 + 4 * i, 2) == id
  }

  lemma ColumnId(data: seq<Byte>, i: nat, c: Col)
    requires HasDirectory(data) && i < NumCols(data) && ColumnOn(data, i) == Some(c)
    ensures EntryId(data, i, c.id)
  {
  }

  lemma ColumnExtracted(data: seq<Byte>, target: nat, i: nat, c: Col)
    requires HasDirectory(data) && i < NumCols(data) && ColumnOn(data, i) == Some(c)
    requires Search(data, target, 0, NumCols(data)) == At(i)
    ensures Extract(data, target) == Some(Some(c.v))
  {
  }

  ghost predicate Directed(data: seq<Byte>, cols: seq<Col>) {
    forall i: nat {:trigger cols[i]} :: i < |cols| ==> EntryId(data, i, cols[i].id)
  }

  ghost predicate FoundOn(p: Probe, cols: seq<Col>, target: nat, lo: nat, hi: nat)
    requires lo <= hi <= |cols|
  {
    if p.At? then p.i < |cols| && cols[p.i].id == target else p.Absent? && forall i :: lo <= i < hi ==> cols[i].id != target
  }

  lemma SearchTurns(data: seq<Byte>, target: nat, lo: nat, hi: nat, id: nat)
    requires lo < hi && EntryId(data, lo + (hi - lo) / 2, id)
    ensures var mid := lo + (hi - lo) / 2;
            Search(data, target, lo, hi) ==
            if id < target then Search(data, target, mid + 1, hi) else if id > target then Search(data, target, lo, mid) else At(mid)
  {
  }

  lemma Widened(p: Probe, cols: seq<Col>, target: nat, lo: nat, mid: nat, hi: nat)
    requires lo <= mid < hi <= |cols| && Ascend(cols)
    requires (cols[mid].id < target && FoundOn(p, cols, target, mid + 1, hi)) || (cols[mid].id > target && FoundOn(p, cols, target, lo, mid))
    ensures FoundOn(p, cols, target, lo, hi)
  {
  }

  lemma {:induction false} SearchOn(data: seq<Byte>, cols: seq<Col>, target: nat, lo: nat, hi: nat)
    requires lo <= hi <= |cols| && Ascend(cols) && Directed(data, cols)
    ensures FoundOn(Search(data, target, lo, hi), cols, target, lo, hi)
    decreases hi - lo
  {
    if lo < hi {
      var mid := lo + (hi - lo) / 2;
      SearchTurns(data, target, lo, hi, cols[mid].id);
      if cols[mid].id < target {
        SearchOn(data, cols, target, mid + 1, hi);
        Widened(Search(data, target, mid + 1, hi), cols, target, lo, mid, hi);
      } else if cols[mid].id > target {
        SearchOn(data, cols, target, lo, mid);
        Widened(Search(data, target, lo, mid), cols, target, lo, mid, hi);
      }
    }
  }
}
