/** The byte layout of rows: rowid, column count, a directory of (column id, offset), then the values. */
module RowLayout {
  import opened Seqs
  import opened Bytes
  import opened Store

  /** A column as bytes. */
  datatype Part = Part(id: nat, bytes: seq<Byte>)

  const DIR_START := 10
  const U16 := 0x1_0000

  function Body(parts: seq<Part>): seq<Byte> {
    if parts == [] then [] else parts[0].bytes + Body(parts[1..])
  }

  /** Where value `i` starts, counted from the end of the directory. */
  function Offset(parts: seq<Part>, i: nat): nat
    requires i <= |parts|
  {
    |Body(parts[..i])|
  }

  /** A directory entry; it holds the low 16 bits of both numbers. */
  function Entry(id: nat, off: nat): (s: seq<Byte>)
    ensures |s| == 4
  {
    Le(id, 2) + Le(off, 2)
  }

  function Directory(parts: seq<Part>, off: nat): (s: seq<Byte>)
    ensures |s| == 4 * |parts|
  {
    if parts == [] then [] else Entry(parts[0].id, off) + Directory(parts[1..], off + |parts[0].bytes|)
  }

  function Head(rowid: nat, n: nat): (s: seq<Byte>)
    ensures |s| == DIR_START
  {
    Le(rowid, 8) + Le(n, 2)
  }

  function Front(rowid: nat, parts: seq<Part>): (s: seq<Byte>)
    ensures |s| == DIR_START + 4 * |parts|
  {
    Head(rowid, |parts|) + Directory(parts, 0)
  }

  function Laid(rowid: nat, parts: seq<Part>): (s: seq<Byte>)
    ensures |s| == DIR_START + 4 * |parts| + |Body(parts)|
  {
    Front(rowid, parts) + Body(parts)
  }

  predicate PartsOk(parts: seq<Part>) {
    |parts| < U16 && forall i :: 0 <= i < |parts| ==> parts[i].id < U16
  }

  predicate Rising(parts: seq<Part>) {
    forall i, j :: 0 <= i < j < |parts| ==> parts[i].id < parts[j].id
  }

  /** Every value starts at an offset that fits the directory. */
  predicate OffsetsFit(parts: seq<Part>) {
    forall i :: 0 <= i < |parts| ==> Offset(parts, i) < U16
  }

  // ----- reading the directory, on any bytes -----

  function NumCols(data: seq<Byte>): (n: nat)
    requires |data| >= DIR_START
    ensures n < U16
  {
    FieldBound(data, 8, 2);
    PowValues();
    Field(data, 8, 2)
  }

  datatype Probe = At(i: nat) | Absent | Truncated
  datatype Turn = Higher | Lower | Here | Cut

  /** Which way a probe of directory entry `i` turns. */
  function Compare(data: seq<Byte>, target: nat, i: nat): (c: Turn)
    ensures c.Here? ==> DIR_START + 4 * i + 4 <= |data|
  {
    var entry := DIR_START + i * 4;
    if entry + 4 > |data| then Cut
    else if Field(data, entry, 2) < target then Higher
    else if Field(data, entry, 2) > target then Lower
    else Here
  }

  /** Binary search of the directory between two entries. */
  function Search(data: seq<Byte>, target: nat, lo: nat, hi: nat): (p: Probe)
    requires lo <= hi
    ensures p.At? ==> lo <= p.i < hi && DIR_START + 4 * p.i + 4 <= |data|
    decreases hi - lo
  {
    if lo == hi then Absent
    else
      var mid := lo + (hi - lo) / 2;
      match Compare(data, target, mid)
      case Cut => Truncated
      case Higher => Search(data, target, mid + 1, hi)
      case Lower => Search(data, target, lo, mid)
      case Here => At(mid)
  }

  method SearchDirectory(data: seq<Byte>, target: nat, n: nat) returns (p: Probe)
    ensures p == Search(data, target, 0, n)
  {
    var lo, hi := 0, n;
    ghost var goal := Search(data, target, 0, n);
    while lo < hi
      invariant lo <= hi && Search(data, target, lo, hi) == goal
    {
      var mid := lo + (hi - lo) / 2;
      match Compare(data, target, mid)
      case Cut => return Truncated;
      case Higher => lo := mid + 1;
      case Lower => hi := mid;
      case Here => return At(mid);
    }
    return Absent;
  }

  function ValueStart(data: seq<Byte>, n: nat, i: nat): nat
    requires i < n && DIR_START + 4 * i + 4 <= |data|
  {
    DIR_START + 4 * n + Field(data, DIR_START + 4 * i + 2, 2)
  }

  /** Where value `i` ends: at the next value, or with the row; past the end on cut directories. */
  function ValueEnd(data: seq<Byte>, n: nat, i: nat): nat
    requires i < n && DIR_START + 4 * i + 4 <= |data|
  {
    if i + 1 == n then |data|
    else if DIR_START + 4 * (i + 1) + 4 <= |data| then ValueStart(data, n, i + 1)
    else |data| + 1
  }

  /** Where a column's value lies, as its directory entry says. */
  datatype Spot = Spot(i: nat, start: nat, end: nat) | NoColumn | BadRow

  function Locate(data: seq<Byte>, target: nat): (s: Spot)
    ensures s.Spot? ==> |data| >= DIR_START && s.i < NumCols(data)
  {
    if |data| < DIR_START then BadRow
    else
      match Search(data, target, 0, NumCols(data))
      case Truncated => BadRow
      case Absent => NoColumn
      case At(i) => Spot(i, ValueStart(data, NumCols(data), i), ValueEnd(data, NumCols(data), i))
  }

  method LocateColumn(data: seq<Byte>, target: nat) returns (s: Spot)
    ensures s == Locate(data, target)
  {
    if |data| < DIR_START { return BadRow; }
    var n := NumCols(data);
    var p := SearchDirectory(data, target, n);
    match p
    case Truncated => return BadRow;
    case Absent => return NoColumn;
    case At(i) => return Spot(i, ValueStart(data, n, i), ValueEnd(data, n, i));
  }

  // ----- changing one value, on any bytes -----

  /** Adds `diff` to the offset in directory entry `i`. */
  function ShiftOne(data: seq<Byte>, i: nat, diff: int): (r: Option<seq<Byte>>)
    ensures r.Some? ==> |r.value| == |data|
  {
    var e := DIR_START + 4 * i + 2;
    if e + 2 > |data| then None
    else
      var off := Field(data, e, 2) + diff;
      if off < 0 || off >= U16 then None else Some(Splice(data, e, Le(off, 2)))
  }

  /** Adds `diff` to the directory offsets from entry `i` on. */
  function ShiftOffsets(data: seq<Byte>, n: nat, i: nat, diff: int): (r: Option<seq<Byte>>)
    ensures r.Some? ==> |r.value| == |data|
    decreases n - i
  {
    if i >= n then Some(data)
    else
      var next := ShiftOne(data, i, diff);
      if next.None? then None else ShiftOffsets(next.value, n, i + 1, diff)
  }

  /** Puts `value` in place of `data[start..end]` and moves the later offsets. */
  function Overwrite(data: seq<Byte>, n: nat, i: nat, start: nat, end: nat, value: seq<Byte>): Option<seq<Byte>>
    requires start <= end <= |data|
  {
    var spliced := data[..start] + value + data[end..];
    if |value| == end - start then Some(spliced) else ShiftOffsets(spliced, n, i + 1, |value| - (end - start))
  }

  method ShiftFrom(data: seq<Byte>, n: nat, from: nat, diff: int) returns (r: Option<seq<Byte>>)
    ensures r == ShiftOffsets(data, n, from, diff)
  {
    var result, i := data, from;
    while i < n
      invariant ShiftOffsets(result, n, i, diff) == ShiftOffsets(data, n, from, diff)
      decreases n - i
    {
      var next := ShiftOne(result, i, diff);
      if next.None? { return None; }
      result, i := next.value, i + 1;
    }
    return Some(result);
  }

  method OverwriteValue(data: seq<Byte>, n: nat, i: nat, start: nat, end: nat, value: seq<Byte>) returns (r: Option<seq<Byte>>)
    requires start <= end <= |data|
    ensures r == Overwrite(data, n, i, start, end, value)
  {
    var result := data[..start] + value + data[end..];
    if |value| == end - start { return Some(result); }
    r := ShiftFrom(result, n, i + 1, |value| - (end - start));
  }

  // ----- laying a row out in one pass -----

  method LayOut(rowid: nat, parts: seq<Part>) returns (buf: seq<Byte>)
    ensures buf == Laid(rowid, parts)
  {
    var data: seq<Byte>, dir: seq<Byte> := [], [];
    assert parts[0..] == parts;
    assert [] + Body(parts) == Body(parts) && [] + Directory(parts, 0) == Directory(parts, 0);
    for i := 0 to |parts|
      invariant data + Body(parts[i..]) == Body(parts)
      invariant dir + Directory(parts[i..], |data|) == Directory(parts, 0)
    {
      LayoutStep(parts[i..], data, dir);
      CutAround(parts, i);
      dir := dir + Entry(parts[i].id, |data|);
      data := data + parts[i].bytes;
    }
    assert data + [] == data && dir + [] == dir;
    buf := Head(rowid, |parts|) + dir + data;
  }

  lemma LayoutStep(parts: seq<Part>, data: seq<Byte>, dir: seq<Byte>)
    requires parts != []
    ensures data + Body(parts) == (data + parts[0].bytes) + Body(parts[1..])
    ensures dir + Directory(parts, |data|) == (dir + Entry(parts[0].id, |data|)) + Directory(parts[1..], |data + parts[0].bytes|)
  {
    Assoc(data, parts[0].bytes, Body(parts[1..]));
    Assoc(dir, Entry(parts[0].id, |data|), Directory(parts[1..], |data| + |parts[0].bytes|));
  }

  // ----- where things lie in a laid-out row -----

  lemma {:induction false} BodyConcat(a: seq<Part>, b: seq<Part>)
    ensures Body(a + b) == Body(a) + Body(b)
  {
    if a == [] {
      EmptyFront(a, b);
    } else {
      TailOfConcat(a, b);
      BodyConcat(a[1..], b);
    }
  }

  lemma BodyCut(parts: seq<Part>, i: nat)
    requires i < |parts|
    ensures Body(parts) == Body(parts[..i]) + parts[i].bytes + Body(parts[i + 1..])
    ensures Offset(parts, i + 1) == Offset(parts, i) + |parts[i].bytes|
  {
    var x := [parts[i]];
    assert parts == parts[..i] + x + parts[i + 1..];
    BodyConcat(parts[..i] + x, parts[i + 1..]);
    BodyConcat(parts[..i], x);
    assert x[1..] == [] && parts[..i + 1] == parts[..i] + x;
  }

  lemma {:induction false} DirectoryAt(parts: seq<Part>, off: nat, i: nat)
    requires i < |parts|
    ensures Directory(parts, off)[4 * i..4 * i + 4] == Entry(parts[i].id, off + Offset(parts, i))
  {
    var rest := Directory(parts[1..], off + |parts[0].bytes|);
    var first := Entry(parts[0].id, off);
    if i == 0 {
      assert parts[..0] == [];
      assert (first + rest)[0..4] == first;
    } else {
      DirectoryAt(parts[1..], off + |parts[0].bytes|, i - 1);
      OffsetTail(parts, i);
      Skipped(first, rest, 4 * (i - 1));
    }
  }

  lemma OffsetTail(parts: seq<Part>, i: nat)
    requires 1 <= i <= |parts|
    ensures Offset(parts, i) == |parts[0].bytes| + Offset(parts[1..], i - 1)
  {
    assert parts[..i][1..] == parts[1..][..i - 1];
  }

  lemma Skipped<T>(first: seq<T>, rest: seq<T>, at: nat)
    requires |first| == 4 && at + 4 <= |rest|
    ensures (first + rest)[at + 4..at + 8] == rest[at..at + 4]
  {
  }

  lemma EntryFields(data: seq<Byte>, e: nat, id: nat, off: nat)
    requires e + 4 <= |data| && data[e..e + 4] == Entry(id, off) && id < U16
    ensures Field(data, e, 2) == id && data[e + 2..e + 4] == Le(off, 2)
    ensures off < U16 ==> Field(data, e + 2, 2) == off
  {
    Halves(data, e, Le(id, 2), Le(off, 2));
    PowValues();
    LeRoundTrip(id, 2);
    if off < U16 { LeRoundTrip(off, 2); }
  }

  lemma Halves(data: seq<Byte>, e: nat, a: seq<Byte>, b: seq<Byte>)
    requires e + 4 <= |data| && data[e..e + 4] == a + b && |a| == 2 && |b| == 2
    ensures data[e..e + 2] == a && data[e + 2..e + 4] == b
  {
    assert data[e..e + 2] == data[e..e + 4][..2] && data[e + 2..e + 4] == data[e..e + 4][2..];
  }

  lemma Header(rowid: nat, parts: seq<Part>)
    requires rowid < Pow256(8) && |parts| < U16
    ensures Field(Laid(rowid, parts), 0, 8) == rowid && NumCols(Laid(rowid, parts)) == |parts|
  {
    PowValues();
    LeRoundTrip(rowid, 8);
    LeRoundTrip(|parts|, 2);
    HeadFields(Le(rowid, 8), Le(|parts|, 2), Directory(parts, 0), Body(parts));
  }

  lemma HeadFields(a: seq<Byte>, b: seq<Byte>, c: seq<Byte>, d: seq<Byte>)
    requires |a| == 8 && |b| == 2
    ensures ((a + b) + c + d)[0..8] == a && ((a + b) + c + d)[8..10] == b
  {
  }

  lemma Inside<T>(a: seq<T>, b: seq<T>, c: seq<T>, from: nat, to: nat)
    requires from <= to <= |b|
    ensures (a + b + c)[|a| + from..|a| + to] == b[from..to]
  {
  }

  /** The directory entry of column `i`. */
  lemma EntryAt(rowid: nat, parts: seq<Part>, i: nat)
    requires i < |parts| && parts[i].id < U16
    ensures var data, e := Laid(rowid, parts), DIR_START + 4 * i;
            && Field(data, e, 2) == parts[i].id && data[e + 2..e + 4] == Le(Offset(parts, i), 2)
            && (Offset(parts, i) < U16 ==> Field(data, e + 2, 2) == Offset(parts, i))
  {
    DirectoryAt(parts, 0, i);
    Inside(Head(rowid, |parts|), Directory(parts, 0), Body(parts), 4 * i, 4 * i + 4);
    EntryFields(Laid(rowid, parts), DIR_START + 4 * i, parts[i].id, Offset(parts, i));
  }

  /** Where column `i` starts and ends. */
  lemma Located(rowid: nat, parts: seq<Part>, i: nat)
    requires i < |parts| && PartsOk(parts) && OffsetsFit(parts)
    ensures ValueStart(Laid(rowid, parts), |parts|, i) == DIR_START + 4 * |parts| + Offset(parts, i)
    ensures ValueEnd(Laid(rowid, parts), |parts|, i) == DIR_START + 4 * |parts| + Offset(parts, i + 1)
  {
    EntryAt(rowid, parts, i);
    if i + 1 < |parts| { EntryAt(rowid, parts, i + 1); } else { assert parts[..i + 1] == parts; }
  }

  /** What lies there. */
  lemma PartBytes(rowid: nat, parts: seq<Part>, i: nat)
    requires i < |parts|
    ensures var data, at, x := Laid(rowid, parts), DIR_START + 4 * |parts| + Offset(parts, i), parts[i].bytes;
            && at + |x| == DIR_START + 4 * |parts| + Offset(parts, i + 1) <= |data|
            && data[at..at + |x|] == x && data[at..] == x + Body(parts[i + 1..])
            && data[..at] == Front(rowid, parts) + Body(parts[..i])
            && data[at + |x|..] == Body(parts[i + 1..])
  {
    BytesBehind(Front(rowid, parts), parts, i);
  }

  lemma BytesBehind(h: seq<Byte>, parts: seq<Part>, i: nat)
    requires i < |parts|
    ensures var data, at, x := h + Body(parts), |h| + Offset(parts, i), parts[i].bytes;
            && at + |x| == |h| + Offset(parts, i + 1) <= |data|
            && data[at..at + |x|] == x && data[at..] == x + Body(parts[i + 1..])
            && data[..at] == h + Body(parts[..i]) && data[at + |x|..] == Body(parts[i + 1..])
  {
    BodyCut(parts, i);
    Between(h, Body(parts[..i]), parts[i].bytes, Body(parts[i + 1..]));
  }

  lemma Between<T>(h: seq<T>, a: seq<T>, x: seq<T>, b: seq<T>)
    ensures var data, at := h + (a + x + b), |h| + |a|;
            at + |x| <= |data| && data[at..at + |x|] == x && data[at..] == x + b && data[..at] == h + a && data[at + |x|..] == b
  {
  }

  /** A search result names the column, or tells that the entries searched do not have it. */
  ghost predicate Finds(p: Probe, parts: seq<Part>, target: nat, lo: nat, hi: nat) {
    match p
    case At(i) => i < |parts| && parts[i].id == target
    case Absent => forall i :: lo <= i < hi && i < |parts| ==> parts[i].id != target
    case Truncated => false
  }

  lemma CompareTurns(rowid: nat, parts: seq<Part>, target: nat, i: nat)
    requires i < |parts| && parts[i].id < U16
    ensures Compare(Laid(rowid, parts), target, i) ==
      if parts[i].id < target then Higher else if parts[i].id > target then Lower else Here
  {
    EntryAt(rowid, parts, i);
  }

  /** The binary search finds exactly the column if it is there. */
  lemma {:induction false} SearchFinds(rowid: nat, parts: seq<Part>, target: nat, lo: nat, hi: nat)
    requires lo <= hi <= |parts| && PartsOk(parts) && Rising(parts)
    ensures Finds(Search(Laid(rowid, parts), target, lo, hi), parts, target, lo, hi)
    decreases hi - lo
  {
    if lo < hi {
      var mid := lo + (hi - lo) / 2;
      CompareTurns(rowid, parts, target, mid);
      if parts[mid].id < target {
        SearchFinds(rowid, parts, target, mid + 1, hi);
      } else if parts[mid].id > target {
        SearchFinds(rowid, parts, target, lo, mid);
      }
    }
  }

  /** The spot of column `i` in the laid-out row. */
  function SpotOf(parts: seq<Part>, i: nat): Spot
    requires i < |parts|
  {
    Spot(i, DIR_START + 4 * |parts| + Offset(parts, i), DIR_START + 4 * |parts| + Offset(parts, i + 1))
  }

  lemma SpotBytes(rowid: nat, parts: seq<Part>, i: nat)
    requires i < |parts|
    ensures var data, s := Laid(rowid, parts), SpotOf(parts, i);
            && s.start <= s.end <= |data|
            && data[s.start..s.end] == parts[i].bytes && data[s.start..] == parts[i].bytes + Body(parts[i + 1..])
  {
    PartBytes(rowid, parts, i);
  }

  /** A laid-out row locates each of its columns, and no other. */
  lemma LocateFinds(rowid: nat, parts: seq<Part>, target: nat) returns (i: nat)
    requires rowid < Pow256(8) && PartsOk(parts) && Rising(parts) && OffsetsFit(parts)
    ensures i <= |parts|
    ensures i < |parts| ==> parts[i].id == target && Locate(Laid(rowid, parts), target) == SpotOf(parts, i)
    ensures i == |parts| ==>
      Locate(Laid(rowid, parts), target) == NoColumn && forall j :: 0 <= j < |parts| ==> parts[j].id != target
  {
    Header(rowid, parts);
    SearchFinds(rowid, parts, target, 0, |parts|);
    var p := Search(Laid(rowid, parts), target, 0, |parts|);
    if p.At? {
      i := p.i;
      Located(rowid, parts, i);
    } else {
      i := |parts|;
    }
  }

  // ----- changing one value re-lays the row -----

  /** Offsets behind a changed part move by its change in size. */
  lemma {:induction false} OffsetsMoved(parts: seq<Part>, i: nat, p: Part, j: nat)
    requires i < |parts| && j <= |parts|
    ensures Offset(parts[i := p], j) == Offset(parts, j) + (if j > i then |p.bytes| - |parts[i].bytes| else 0)
    decreases j
  {
    var next := parts[i := p];
    if j <= i {
      assert next[..j] == parts[..j];
    } else {
      OffsetsMoved(parts, i, p, j - 1);
      BodyCut(next, j - 1);
      BodyCut(parts, j - 1);
    }
  }

  /** The directory with the first `k` entries of the changed row and the others of the old one. */
  function Mixed(parts: seq<Part>, next: seq<Part>, k: nat): (s: seq<Byte>)
    requires |next| == |parts| && k <= |parts|
    ensures |s| == 4 * |parts|
  {
    Directory(next, 0)[..4 * k] + Directory(parts, 0)[4 * k..]
  }

  lemma MixedStep(h: seq<Byte>, parts: seq<Part>, next: seq<Part>, k: nat, b: seq<Byte>)
    requires |h| == DIR_START && |next| == |parts| && k < |parts| && next[k].id == parts[k].id
    requires Offset(parts, k) < U16
    ensures var data, e := MixedRow(h, parts, next, k, b), DIR_START + 4 * k + 2;
            && Field(data, e, 2) == Offset(parts, k)
            && Splice(data, e, Le(Offset(next, k), 2)) == MixedRow(h, parts, next, k + 1, b)
  {
    DirectoryAt(parts, 0, k);
    DirectoryAt(next, 0, k);
    PowValues();
    LeRoundTrip(Offset(parts, k), 2);
    EntryMoved(h, Directory(parts, 0), Directory(next, 0), b, k,
               Le(parts[k].id, 2), Le(Offset(parts, k), 2), Le(Offset(next, k), 2));
  }

  lemma EntryMoved(h: seq<Byte>, from: seq<Byte>, to: seq<Byte>, b: seq<Byte>, k: nat, id: seq<Byte>, x: seq<Byte>, y: seq<Byte>)
    requires |h| == DIR_START && |from| == |to| && 4 * k + 4 <= |from| && |id| == 2 && |x| == 2 && |y| == 2
    requires from[4 * k..4 * k + 4] == id + x && to[4 * k..4 * k + 4] == id + y
    ensures var data, e := h + (to[..4 * k] + from[4 * k..]) + b, DIR_START + 4 * k + 2;
            && e + 2 <= |data| && data[e..e + 2] == x
            && Splice(data, e, y) == h + (to[..4 * k + 4] + from[4 * k + 4..]) + b
  {
    var p, q := to[..4 * k], from[4 * k + 4..];
    assert from[4 * k..] == from[4 * k..4 * k + 4] + q;
    assert to[..4 * k + 4] == p + to[4 * k..4 * k + 4];
    Spliced(h, p, id, x, y, q, b);
  }

  lemma Spliced(h: seq<Byte>, p: seq<Byte>, id: seq<Byte>, x: seq<Byte>, y: seq<Byte>, q: seq<Byte>, b: seq<Byte>)
    requires |x| == |y|
    ensures var data, e := h + (p + (id + x + q)) + b, |h| + |p| + |id|;
            && e + |y| <= |data| && data[e..e + |x|] == x
            && Splice(data, e, y) == h + (p + (id + y) + q) + b
  {
  }

  /** Offsets from column `k` on fit. */
  predicate FitFrom(parts: seq<Part>, k: nat)
    requires k <= |parts|
    decreases |parts| - k
  {
    k == |parts| || (Offset(parts, k) < U16 && FitFrom(parts, k + 1))
  }

  lemma {:induction false} FitFromAll(parts: seq<Part>, k: nat)
    requires k <= |parts|
    ensures FitFrom(parts, k) <==> forall j :: k <= j < |parts| ==> Offset(parts, j) < U16
    decreases |parts| - k
  {
    if k < |parts| { FitFromAll(parts, k + 1); }
  }

  function MixedRow(h: seq<Byte>, parts: seq<Part>, next: seq<Part>, k: nat, b: seq<Byte>): (s: seq<Byte>)
    requires |next| == |parts| && k <= |parts| && |h| == DIR_START
    ensures |s| == DIR_START + 4 * |parts| + |b|
  {
    h + Mixed(parts, next, k) + b
  }

  /** Moving the offsets gives the directory of the changed row, or fails when one does not fit. */
  lemma {:induction false} OffsetsShifted(h: seq<Byte>, parts: seq<Part>, i: nat, p: Part, k: nat, b: seq<Byte>)
    requires |h| == DIR_START && i < k <= |parts| && p.id == parts[i].id && OffsetsFit(parts)
    ensures var next := parts[i := p];
            ShiftOffsets(MixedRow(h, parts, next, k, b), |parts|, k, |p.bytes| - |parts[i].bytes|) ==
            if FitFrom(next, k) then Some(MixedRow(h, parts, next, |parts|, b)) else None
    decreases |parts| - k
  {
    if k < |parts| {
      var next := parts[i := p];
      MixedStep(h, parts, next, k, b);
      OffsetsMoved(parts, i, p, k);
      ShiftStep(MixedRow(h, parts, next, k, b), |parts|, k, Offset(parts, k), |p.bytes| - |parts[i].bytes|);
      OffsetsShifted(h, parts, i, p, k + 1, b);
    }
  }

  lemma ShiftStep(data: seq<Byte>, n: nat, k: nat, off: nat, diff: int)
    requires k < n && DIR_START + 4 * k + 4 <= |data| && Field(data, DIR_START + 4 * k + 2, 2) == off && off + diff >= 0
    ensures ShiftOffsets(data, n, k, diff) ==
      if off + diff < U16 then ShiftOffsets(Splice(data, DIR_START + 4 * k + 2, Le(off + diff, 2)), n, k + 1, diff) else None
  {
  }

  lemma {:induction false} SameByFours(a: seq<Byte>, b: seq<Byte>, n: nat)
    requires |a| == |b| && 4 * n <= |a|
    requires forall j: nat :: j < n ==> a[4 * j..4 * j + 4] == b[4 * j..4 * j + 4]
    ensures a[..4 * n] == b[..4 * n]
  {
    if n > 0 {
      SameByFours(a, b, n - 1);
      var m := 4 * (n - 1);
      assert a[..4 * n] == a[..m] + a[m..m + 4] && b[..4 * n] == b[..m] + b[m..m + 4];
    }
  }

  /** Columns up to the changed one keep their offsets, all of them if its size stays. */
  lemma MixedAtStart(parts: seq<Part>, i: nat, p: Part, k: nat)
    requires i < |parts| && p.id == parts[i].id
    requires k == if |p.bytes| == |parts[i].bytes| then |parts| else i + 1
    ensures Directory(parts[i := p], 0)[..4 * k] == Directory(parts, 0)[..4 * k]
    ensures forall j: nat :: j < k ==> Offset(parts[i := p], j) == Offset(parts, j)
  {
    var next := parts[i := p];
    var d, e := Directory(next, 0), Directory(parts, 0);
    forall j: nat | j < k ensures d[4 * j..4 * j + 4] == e[4 * j..4 * j + 4] && Offset(next, j) == Offset(parts, j) {
      DirectoryAt(parts, 0, j);
      DirectoryAt(next, 0, j);
      OffsetsMoved(parts, i, p, j);
    }
    SameByFours(d, e, k);
  }

  /** The value replaced in the bytes, the directory still the old one. */
  lemma ValueReplaced(rowid: nat, parts: seq<Part>, i: nat, p: Part)
    requires i < |parts|
    ensures var data, at := Laid(rowid, parts), DIR_START + 4 * |parts| + Offset(parts, i);
            && at + |parts[i].bytes| <= |data|
            && data[..at] + p.bytes + data[at + |parts[i].bytes|..] ==
               Front(rowid, parts) + Body(parts[i := p])
  {
    var next := parts[i := p];
    PartBytes(rowid, parts, i);
    BodyCut(next, i);
    assert next[..i] == parts[..i] && next[i + 1..] == parts[i + 1..];
    Swapped(Front(rowid, parts), Body(parts[..i]), p.bytes, Body(parts[i + 1..]));
  }

  lemma Swapped<T>(h: seq<T>, a: seq<T>, x: seq<T>, b: seq<T>)
    ensures (h + a) + x + b == h + (a + x + b)
  {
  }

  /** Overwriting a value gives the changed row laid out afresh, or fails when an offset does not fit. */
  lemma OverwriteRelays(rowid: nat, parts: seq<Part>, i: nat, p: Part)
    requires i < |parts| && p.id == parts[i].id && OffsetsFit(parts)
    ensures var data, s := Laid(rowid, parts), SpotOf(parts, i);
            && s.start <= s.end <= |data|
            && Overwrite(data, |parts|, s.i, s.start, s.end, p.bytes) ==
               if OffsetsFit(parts[i := p]) then Some(Laid(rowid, parts[i := p])) else None
  {
    var next, h, b := parts[i := p], Head(rowid, |parts|), Body(parts[i := p]);
    PartBytes(rowid, parts, i);
    ValueReplaced(rowid, parts, i, p);
    if |p.bytes| == |parts[i].bytes| {
      MixedAtStart(parts, i, p, |parts|);
      WholeDirectory(Directory(next, 0), Directory(parts, 0));
      assert forall j: nat :: j < |parts| ==> Offset(next, j) == Offset(parts, j) < U16;
    } else {
      MixedAtStart(parts, i, p, i + 1);
      WholeMix(Directory(next, 0), Directory(parts, 0), 4 * (i + 1));
      OffsetsShifted(h, parts, i, p, i + 1, b);
      FitFromAll(next, i + 1);
      assert forall j: nat :: j < i + 1 ==> Offset(next, j) == Offset(parts, j) < U16;
    }
  }

  lemma WholeDirectory(d: seq<Byte>, e: seq<Byte>)
    requires |d| == |e| && d[..|d|] == e[..|d|]
    ensures d == e
  {
  }

  lemma WholeMix(d: seq<Byte>, e: seq<Byte>, k: nat)
    requires |d| == |e| && k <= |d| && d[..k] == e[..k]
    ensures d[..k] + e[k..] == e && d[..|d|] + e[|d|..] == d
  {
  }

  /** Overwriting behind the rowid keeps the rowid. */
  lemma OverwriteKeepsFront(data: seq<Byte>, n: nat, i: nat, start: nat, end: nat, value: seq<Byte>)
    requires 8 <= start <= end <= |data|
    ensures var r := Overwrite(data, n, i, start, end, value); r.Some? ==> |r.value| >= 8 && r.value[..8] == data[..8]
  {
    var spliced := data[..start] + value + data[end..];
    assert spliced[..8] == data[..8];
    ShiftKeepsFront(spliced, n, i + 1, |value| - (end - start));
  }

  lemma {:induction false} ShiftKeepsFront(data: seq<Byte>, n: nat, i: nat, diff: int)
    requires |data| >= 8
    ensures var r := ShiftOffsets(data, n, i, diff); r.Some? ==> r.value[..8] == data[..8]
    decreases n - i
  {
    if i < n {
      var next := ShiftOne(data, i, diff);
      if next.Some? {
        var e := DIR_START + 4 * i + 2;
        SpliceApart(data, e, Le(Field(data, e, 2) + diff, 2), 0, 8);
        ShiftKeepsFront(next.value, n, i + 1, diff);
      }
    }
  }

  // ----- offsets past 16 bits -----

  lemma {:induction false} LowBits(n: nat, k: nat)
    ensures FromLe(Le(n, k)) <= n && FromLe(Le(n, k)) < Pow256(k)
  {
    FromLeBound(Le(n, k));
    if k > 0 {
      LowBits(n / 256, k - 1);
      assert Le(n, k)[1..] == Le(n / 256, k - 1);
    }
  }

  /** The last value is found at its start exactly when its offset fits 16 bits. */
  lemma LastNeedsFit(rowid: nat, parts: seq<Part>)
    requires parts != [] && parts[|parts| - 1].id < U16
    ensures var n := |parts|; var data := Laid(rowid, parts); var start := ValueStart(data, n, n - 1);
            start <= |data| && (data[start..] == parts[n - 1].bytes <==> Offset(parts, n - 1) < U16)
  {
    var n, off := |parts|, Offset(parts, |parts| - 1);
    EntryAt(rowid, parts, n - 1);
    PartBytes(rowid, parts, n - 1);
    assert parts[n - 1 + 1..] == [];
    LowBits(off, 2);
    LastStart(Laid(rowid, parts), n, off, Le(off, 2), parts[n - 1].bytes);
    PowValues();
    if off < U16 { LeRoundTrip(off, 2); }
  }

  lemma LastStart(data: seq<Byte>, n: nat, off: nat, low: seq<Byte>, value: seq<Byte>)
    requires n > 0 && DIR_START + 4 * n + off + |value| == |data| && |low| == 2 && FromLe(low) <= off
    requires data[DIR_START + 4 * (n - 1) + 2..DIR_START + 4 * (n - 1) + 4] == low
    requires data[DIR_START + 4 * n + off..] == value
    ensures ValueStart(data, n, n - 1) <= |data|
    ensures data[ValueStart(data, n, n - 1)..] == value <==> FromLe(low) == off
  {
    TailsDiffer(data, DIR_START + 4 * n + FromLe(low), DIR_START + 4 * n + off);
  }

  lemma TailsDiffer(data: seq<Byte>, a: nat, b: nat)
    requires a <= b <= |data|
    ensures data[a..] == data[b..] <==> a == b
  {
    assert |data[a..]| == |data| - a && |data[b..]| == |data| - b;
  }
}
