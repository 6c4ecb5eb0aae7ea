/** The bytes of leaf and branch pages, and the loops that write them in place. */
module PageImage {
  import opened Seqs
  import opened Bytes
  import opened Overflow

  const PAGE_LEAF := 1
  const PAGE_BRANCH := 2
  const DATA_END := PAGE_SIZE - CHECKSUM_SIZE

  // ----- leaf pages as row lists -----

  function Len(rows: seq<seq<Byte>>): nat {
    if rows == [] then 0 else |rows[0]| + Len(rows[1..])
  }

  lemma {:induction false} LenConcat(a: seq<seq<Byte>>, b: seq<seq<Byte>>)
    ensures Len(a + b) == Len(a) + Len(b)
  {
    if a == [] {
      EmptyFront(a, b);
    } else {
      LenConcat(a[1..], b);
      TailOfConcat(a, b);
    }
  }

  lemma LenStep(rows: seq<seq<Byte>>, i: nat)
    requires i < |rows|
    ensures Len(rows[..i + 1]) == Len(rows[..i]) + |rows[i]|
  {
    LenConcat(rows[..i], [rows[i]]);
    CutAround(rows, i);
    assert Len([rows[i]]) == |rows[i]| + Len([rows[i]][1..]);
  }

  lemma LenPrefix(rows: seq<seq<Byte>>, i: nat)
    requires i <= |rows|
    ensures Len(rows[..i]) <= Len(rows)
  {
    LenConcat(rows[..i], rows[i..]);
    CutAt(rows, i);
  }

  /** Where row `i` starts on a page that holds `rows` packed after the offset array. */
  function Start(rows: seq<seq<Byte>>, i: nat): nat
    requires i <= |rows|
  {
    PAGE_HEADER_SIZE + 2 * |rows| + Len(rows[..i])
  }

  predicate RowsFit(rows: seq<seq<Byte>>) {
    PAGE_HEADER_SIZE + 2 * |rows| + Len(rows) <= DATA_END
  }

  function NumRows(d: seq<Byte>): nat requires |d| == PAGE_SIZE { Field(d, 4, 2) }
  function FreeOffset(d: seq<Byte>): nat requires |d| == PAGE_SIZE { Field(d, 6, 2) }
  function NextLeaf(d: seq<Byte>): nat requires |d| == PAGE_SIZE { Field(d, 8, 4) }
  function PrevLeaf(d: seq<Byte>): nat requires |d| == PAGE_SIZE { Field(d, 12, 4) }
  function Flags(d: seq<Byte>): nat requires |d| == PAGE_SIZE { Field(d, 2, 2) }

  function RowOffset(d: seq<Byte>, i: nat): nat
    requires |d| == PAGE_SIZE && PAGE_HEADER_SIZE + 2 * i + 2 <= PAGE_SIZE
  {
    Field(d, PAGE_HEADER_SIZE + 2 * i, 2)
  }

  /** The end of row `i`: the next row's offset, or the free-space offset for the last row. */
  function RowEnd(d: seq<Byte>, i: nat, n: nat): nat
    requires |d| == PAGE_SIZE && i < n && PAGE_HEADER_SIZE + 2 * n <= PAGE_SIZE
  {
    if i + 1 < n then RowOffset(d, i + 1) else FreeOffset(d)
  }

  /** The first `k` of `rows` are in place, their offsets recorded. */
  ghost predicate Packed(d: seq<Byte>, rows: seq<seq<Byte>>, k: nat)
    requires |d| == PAGE_SIZE && k <= |rows|
  {
    RowsFit(rows) && forall i :: 0 <= i < k ==> RowAt(d, rows, i)
  }

  ghost predicate RowAt(d: seq<Byte>, rows: seq<seq<Byte>>, i: nat)
    requires |d| == PAGE_SIZE && i < |rows| && RowsFit(rows)
  {
    LenPrefix(rows, i + 1);
    LenStep(rows, i);
    RowOffset(d, i) == Start(rows, i) && d[Start(rows, i)..Start(rows, i) + |rows[i]|] == rows[i]
  }

  /** A page image holds these rows. */
  ghost predicate HoldsRows(d: seq<Byte>, rows: seq<seq<Byte>>) {
    && |d| == PAGE_SIZE && Packed(d, rows, |rows|)
    && NumRows(d) == |rows| && FreeOffset(d) == Start(rows, |rows|)
  }

  /** Reading row `i` off a page by its bounds. */
  function ReadRow(d: seq<Byte>, i: nat): (r: seq<Byte>)
    requires |d| == PAGE_SIZE && i < NumRows(d) && PAGE_HEADER_SIZE + 2 * NumRows(d) <= PAGE_SIZE
  {
    var s, e := RowOffset(d, i), RowEnd(d, i, NumRows(d));
    if s <= e <= PAGE_SIZE then d[s..e] else []
  }

  /** The bounds of row `i` cut out exactly that row. */
  lemma BoundsRead(d: seq<Byte>, rows: seq<seq<Byte>>, i: nat)
    requires HoldsRows(d, rows) && i < |rows|
    ensures PAGE_HEADER_SIZE + 2 * |rows| <= DATA_END
    ensures RowOffset(d, i) == Start(rows, i) && RowEnd(d, i, |rows|) == Start(rows, i) + |rows[i]| <= DATA_END
    ensures d[RowOffset(d, i)..RowEnd(d, i, |rows|)] == rows[i]
    ensures ReadRow(d, i) == rows[i]
  {
    LenStep(rows, i);
    LenPrefix(rows, i + 1);
    assert RowAt(d, rows, i);
    if i + 1 < |rows| { assert RowAt(d, rows, i + 1); } else { assert rows[..i + 1] == rows; }
  }

  /** The row list of a page image is unique. */
  lemma RowsUnique(d: seq<Byte>, rows: seq<seq<Byte>>, others: seq<seq<Byte>>)
    requires HoldsRows(d, rows) && HoldsRows(d, others)
    ensures rows == others
  {
    forall i | 0 <= i < |rows| ensures rows[i] == others[i] {
      BoundsRead(d, rows, i);
      BoundsRead(d, others, i);
    }
  }

  /** Writing outside the rows and offsets leaves them packed. */
  lemma PackedKept(d: seq<Byte>, rows: seq<seq<Byte>>, k: nat, off: nat, bytes: seq<Byte>)
    requires |d| == PAGE_SIZE && k <= |rows| && Packed(d, rows, k) && off + |bytes| <= PAGE_SIZE
    requires off + |bytes| <= PAGE_HEADER_SIZE || off >= Start(rows, k)
             || (PAGE_HEADER_SIZE + 2 * k <= off && off + |bytes| <= PAGE_HEADER_SIZE + 2 * |rows|)
    ensures Packed(Splice(d, off, bytes), rows, k)
  {
    assert rows[..|rows|] == rows;
    forall i | 0 <= i < k ensures RowAt(Splice(d, off, bytes), rows, i) {
      assert RowAt(d, rows, i);
      LenStep(rows, i);
      LenPrefix(rows, i + 1);
      LenPrefix(rows[..k], i + 1);
      assert rows[..k][..i + 1] == rows[..i + 1];
      SpliceApart(d, off, bytes, PAGE_HEADER_SIZE + 2 * i, PAGE_HEADER_SIZE + 2 * i + 2);
      SpliceApart(d, off, bytes, Start(rows, i), Start(rows, i) + |rows[i]|);
    }
  }

  /** Copying row `k` behind the first `k` and recording its offset packs one more. */
  lemma PackedMore(d: seq<Byte>, rows: seq<seq<Byte>>, k: nat)
    requires |d| == PAGE_SIZE && k < |rows| && Packed(d, rows, k)
    ensures Start(rows, k) + |rows[k]| == Start(rows, k + 1) <= DATA_END
    ensures Packed(Splice(Splice(d, Start(rows, k), rows[k]), PAGE_HEADER_SIZE + 2 * k, Le(Start(rows, k), 2)), rows, k + 1)
  {
    LenStep(rows, k);
    LenPrefix(rows, k + 1);
    assert rows[..|rows|] == rows;
    var at, slot := Start(rows, k), PAGE_HEADER_SIZE + 2 * k;
    var d1 := Splice(d, at, rows[k]);
    var d2 := Splice(d1, slot, Le(at, 2));
    PackedKept(d, rows, k, at, rows[k]);
    PackedKept(d1, rows, k, slot, Le(at, 2));
    PowValues();
    FieldWritten(d1, slot, at, 2);
    SpliceAt(d, at, rows[k]);
    SpliceApart(d1, slot, Le(at, 2), at, at + |rows[k]|);
    assert RowAt(d2, rows, k);
  }

  // ----- the row lists the writers aim at -----

  function Inserted(rows: seq<seq<Byte>>, pos: nat, row: seq<Byte>): (s: seq<seq<Byte>>)
    requires pos <= |rows|
    ensures |s| == |rows| + 1
  {
    rows[..pos] + [row] + rows[pos..]
  }

  /** The first `n` rows without those at the given positions. */
  function Kept(rows: seq<seq<Byte>>, skips: seq<nat>, n: nat): seq<seq<Byte>>
    requires n <= |rows|
  {
    if n == 0 then [] else Kept(rows, skips, n - 1) + (if n - 1 in skips then [] else [rows[n - 1]])
  }

  ghost predicate Ascending(skips: seq<nat>, n: nat) {
    && (forall i, j :: 0 <= i < j < |skips| ==> skips[i] < skips[j])
    && (forall i :: 0 <= i < |skips| ==> skips[i] < n)
  }

  lemma {:induction false} KeptCount(rows: seq<seq<Byte>>, skips: seq<nat>, n: nat, p: nat)
    requires Ascending(skips, |rows|) && n <= |rows| && p <= |skips|
    requires forall i :: 0 <= i < |skips| ==> (skips[i] < n <==> i < p)
    ensures |Kept(rows, skips, n)| == n - p
  {
    if n > 0 {
      if p > 0 && skips[p - 1] == n - 1 {
        KeptCount(rows, skips, n - 1, p - 1);
      } else {
        forall i | 0 <= i < |skips| ensures skips[i] < n - 1 <==> i < p {
          if i < p && i != p - 1 { assert skips[i] < skips[p - 1]; }
        }
        KeptCount(rows, skips, n - 1, p);
      }
    }
  }

  lemma {:induction false} KeptPrefix(rows: seq<seq<Byte>>, skips: seq<nat>, m: nat, n: nat)
    requires m <= n <= |rows|
    ensures Kept(rows, skips, m) <= Kept(rows, skips, n)
    decreases n
  {
    if m < n { KeptPrefix(rows, skips, m, n - 1); }
  }

  /** A kept row lands right behind the rows kept before it. */
  lemma KeptStep(rows: seq<seq<Byte>>, skips: seq<nat>, src: nat)
    requires src < |rows|
    ensures var k := |Kept(rows, skips, src)|;
            if src in skips then Kept(rows, skips, src + 1) == Kept(rows, skips, src)
            else |Kept(rows, skips, src + 1)| == k + 1 <= |Kept(rows, skips, |rows|)| && Kept(rows, skips, |rows|)[k] == rows[src]
  {
    KeptPrefix(rows, skips, src + 1, |rows|);
  }

  lemma NextSkip(skips: seq<nat>, src: nat, p: nat)
    requires p <= |skips| && forall i :: 0 <= i < |skips| ==> (skips[i] < src <==> i < p)
    requires forall i, j :: 0 <= i < j < |skips| ==> skips[i] < skips[j]
    ensures src in skips ==> p < |skips| && skips[p] == src
  {
    if i :| 0 <= i < |skips| && skips[i] == src {
      if p < i { assert skips[p] < skips[i]; }
    }
  }

  datatype Replacement = Replacement(index: nat, row: seq<Byte>)

  ghost predicate Rising(repls: seq<Replacement>, n: nat) {
    && (forall i, j :: 0 <= i < j < |repls| ==> repls[i].index < repls[j].index)
    && (forall i :: 0 <= i < |repls| ==> repls[i].index < n)
  }

  function Replaced(rows: seq<seq<Byte>>, repls: seq<Replacement>): (s: seq<seq<Byte>>)
    requires Rising(repls, |rows|)
    ensures |s| == |rows|
    ensures forall i :: 0 <= i < |rows| && (forall p :: 0 <= p < |repls| ==> repls[p].index != i) ==> s[i] == rows[i]
    ensures forall p :: 0 <= p < |repls| ==> s[repls[p].index] == repls[p].row
  {
    if repls == [] then rows
    else
      var rest := repls[..|repls| - 1];
      var x := repls[|repls| - 1];
      Replaced(rows, rest)[x.index := x.row]
  }

  // ----- the writers -----

  /** A leaf page's flags and chain links. */
  ghost predicate Linked(d: seq<Byte>, next: nat, prev: nat) {
    |d| == PAGE_SIZE && Flags(d) == PAGE_LEAF && NextLeaf(d) == next && PrevLeaf(d) == prev
  }

  lemma LinkedKept(d: seq<Byte>, next: nat, prev: nat, off: nat, bytes: seq<Byte>)
    requires Linked(d, next, prev) && off + |bytes| <= PAGE_SIZE
    requires off >= PAGE_HEADER_SIZE || (4 <= off && off + |bytes| <= 8)
    ensures Linked(Splice(d, off, bytes), next, prev)
  {
    SpliceApart(d, off, bytes, 2, 4);
    SpliceApart(d, off, bytes, 8, 12);
    SpliceApart(d, off, bytes, 12, 16);
  }

  /** A page buffer changed in place. */
  class PageBuf {
    const data: array<Byte>

    constructor ()
      ensures fresh(data) && data.Length == PAGE_SIZE
    {
      data := new Byte[PAGE_SIZE](_ => 0);
    }

    /** Copies `bytes` over the page at `off`. */
    method Put(off: nat, bytes: seq<Byte>)
      requires off + |bytes| <= data.Length
      modifies data
      ensures data[..] == Splice(old(data[..]), off, bytes)
    {
      for i := 0 to |bytes|
        invariant forall j :: 0 <= j < data.Length ==> data[j] == if off <= j < off + i then bytes[j - off] else old(data[j])
      {
        data[off + i] := bytes[i];
      }
    }

    /** An empty leaf with these links; everything after the header is zero. */
    method StartLeaf(next: nat, prev: nat)
      requires data.Length == PAGE_SIZE && next < 0x1_0000_0000 && prev < 0x1_0000_0000
      modifies data
      ensures Linked(data[..], next, prev)
      ensures forall i :: PAGE_HEADER_SIZE <= i < DATA_END ==> data[i] == 0
    {
      PutLeafHeader(next, prev);
      ghost var h := data[..];
      for i := PAGE_HEADER_SIZE to DATA_END
        invariant data[..PAGE_HEADER_SIZE] == h[..PAGE_HEADER_SIZE]
        invariant forall j :: PAGE_HEADER_SIZE <= j < i ==> data[j] == 0
      {
        data[i] := 0;
      }
      HeaderOnly(h, data[..], next, prev);
    }

    method PutLeafHeader(next: nat, prev: nat)
      requires data.Length == PAGE_SIZE && next < 0x1_0000_0000 && prev < 0x1_0000_0000
      modifies data
      ensures Linked(data[..], next, prev)
    {
      Put(2, Le(PAGE_LEAF, 2));
      Put(4, Le(0, 2));
      Put(8, Le(next, 4));
      Put(12, Le(prev, 4));
      LeafHeader(old(data[..]), next, prev);
    }

    /** Writes row `k` behind the rows before it. */
    method PutRow(ghost rows: seq<seq<Byte>>, row: seq<Byte>, k: nat, pos: nat, ghost next: nat, ghost prev: nat) returns (end: nat)
      requires data.Length == PAGE_SIZE && k < |rows| && row == rows[k]
      requires Linked(data[..], next, prev) && Packed(data[..], rows, k) && pos == Start(rows, k)
      modifies data
      ensures Linked(data[..], next, prev) && Packed(data[..], rows, k + 1)
      ensures end == Start(rows, k + 1)
    {
      PackedMore(data[..], rows, k);
      LenPrefix(rows, k);
      LinkedKept(data[..], next, prev, pos, row);
      LinkedKept(Splice(data[..], pos, row), next, prev, PAGE_HEADER_SIZE + 2 * k, Le(pos, 2));
      Put(pos, row);
      Put(PAGE_HEADER_SIZE + 2 * k, Le(pos, 2));
      end := pos + |row|;
    }

    /** Records the row count and the end of the rows. */
    method Finish(ghost rows: seq<seq<Byte>>, count: nat, pos: nat, ghost next: nat, ghost prev: nat)
      requires data.Length == PAGE_SIZE && count == |rows| && pos == Start(rows, |rows|)
      requires Linked(data[..], next, prev) && Packed(data[..], rows, |rows|)
      modifies data
      ensures Linked(data[..], next, prev) && HoldsRows(data[..], rows)
    {
      FinishKeeps(data[..], rows, next, prev);
      Put(4, Le(count, 2));
      Put(6, Le(pos, 2));
    }

    /** The checksum goes after the rows. */
    method Seal(crc: nat, ghost rows: seq<seq<Byte>>, ghost next: nat, ghost prev: nat)
      requires data.Length == PAGE_SIZE && Linked(data[..], next, prev) && HoldsRows(data[..], rows)
      modifies data
      ensures Linked(data[..], next, prev) && HoldsRows(data[..], rows)
    {
      var d := data[..];
      assert rows[..|rows|] == rows;
      PackedKept(d, rows, |rows|, DATA_END, Le(crc, 4));
      LinkedKept(d, next, prev, DATA_END, Le(crc, 4));
      SpliceApart(d, DATA_END, Le(crc, 4), 4, 6);
      SpliceApart(d, DATA_END, Le(crc, 4), 6, 8);
      Put(DATA_END, Le(crc, 4));
    }

    method WriteLeafWithInsert(snapshot: seq<Byte>, oldCount: nat, insertPos: nat, newRow: seq<Byte>, ghost rows: seq<seq<Byte>>)
      requires data.Length == PAGE_SIZE && HoldsRows(snapshot, rows) && oldCount == |rows|
      requires insertPos <= oldCount && RowsFit(Inserted(rows, insertPos, newRow))
      modifies data
      ensures HoldsRows(data[..], Inserted(rows, insertPos, newRow))
      ensures Linked(data[..], NextLeaf(snapshot), PrevLeaf(snapshot))
    {
      ghost var all := Inserted(rows, insertPos, newRow);
      var total := oldCount + 1;
      var savedNext, savedPrev := Link(snapshot, 8), Link(snapshot, 12);
      StartLeaf(savedNext, savedPrev);
      var writePos := PAGE_HEADER_SIZE + total * 2;
      var dst, src := 0, 0;
      while dst < total
        invariant dst <= total && src == if dst > insertPos then dst - 1 else dst
        invariant Linked(data[..], savedNext, savedPrev) && Packed(data[..], all, dst)
        invariant writePos == Start(all, dst)
      {
        if dst == insertPos {
          writePos := PutRow(all, newRow, dst, writePos, savedNext, savedPrev);
          dst := dst + 1;
        } else {
          BoundsRead(snapshot, rows, src);
          writePos := PutRow(all, ReadRow(snapshot, src), dst, writePos, savedNext, savedPrev);
          src, dst := src + 1, dst + 1;
        }
      }
      Finish(all, total, writePos, savedNext, savedPrev);
    }

    /** Row `idx` of the leaf with the new row in it. */
    method VirtualRow(snapshot: seq<Byte>, oldCount: nat, insertPos: nat, newRow: seq<Byte>, idx: nat, ghost rows: seq<seq<Byte>>)
      returns (row: seq<Byte>)
      requires HoldsRows(snapshot, rows) && oldCount == |rows| && insertPos <= oldCount && idx <= oldCount
      ensures row == Inserted(rows, insertPos, newRow)[idx]
    {
      if idx == insertPos {
        row := newRow;
      } else {
        var orig := if idx < insertPos then idx else idx - 1;
        BoundsRead(snapshot, rows, orig);
        row := snapshot[RowOffset(snapshot, orig)..RowEnd(snapshot, orig, oldCount)];
      }
    }

    /** One half of a split: rows `from .. to` of the leaf with the new row in it. */
    method WriteLeafRange(snapshot: seq<Byte>, oldCount: nat, insertPos: nat, newRow: seq<Byte>,
                          from: nat, to: nat, ghost rows: seq<seq<Byte>>)
      requires data.Length == PAGE_SIZE && HoldsRows(snapshot, rows) && oldCount == |rows|
      requires insertPos <= oldCount && from <= to <= oldCount + 1
      requires RowsFit(Inserted(rows, insertPos, newRow)[from..to])
      modifies data
      ensures HoldsRows(data[..], Inserted(rows, insertPos, newRow)[from..to])
      ensures Linked(data[..], 0, 0)
    {
      ghost var part := Inserted(rows, insertPos, newRow)[from..to];
      var count := to - from;
      StartLeaf(0, 0);
      var writePos := PAGE_HEADER_SIZE + count * 2;
      for dst := 0 to count
        invariant Linked(data[..], 0, 0) && Packed(data[..], part, dst)
        invariant writePos == Start(part, dst)
      {
        var row := VirtualRow(snapshot, oldCount, insertPos, newRow, from + dst, rows);
        writePos := PutRow(part, row, dst, writePos, 0, 0);
      }
      Finish(part, count, writePos, 0, 0);
    }

    method WriteLeafWithout(snapshot: seq<Byte>, oldCount: nat, skipPos: nat, ghost rows: seq<seq<Byte>>)
      requires data.Length == PAGE_SIZE && HoldsRows(snapshot, rows) && oldCount == |rows| && skipPos < oldCount
      modifies data
      ensures HoldsRows(data[..], rows[..skipPos] + rows[skipPos + 1..])
      ensures Linked(data[..], 0, 0)
    {
      ghost var kept := rows[..skipPos] + rows[skipPos + 1..];
      DroppedFit(rows, skipPos);
      var total := oldCount - 1;
      StartLeaf(0, 0);
      var writePos := PAGE_HEADER_SIZE + total * 2;
      var dst := 0;
      for src := 0 to oldCount
        invariant dst == (if src > skipPos then src - 1 else src)
        invariant Linked(data[..], 0, 0) && Packed(data[..], kept, dst)
        invariant writePos == Start(kept, dst)
      {
        if src != skipPos {
          BoundsRead(snapshot, rows, src);
          writePos := PutRow(kept, ReadRow(snapshot, src), dst, writePos, 0, 0);
          dst := dst + 1;
        }
      }
      Finish(kept, total, writePos, 0, 0);
    }

    method WriteLeafWithoutMultiple(snapshot: seq<Byte>, oldCount: nat, skips: seq<nat>, ghost rows: seq<seq<Byte>>)
      requires data.Length == PAGE_SIZE && HoldsRows(snapshot, rows) && oldCount == |rows| && Ascending(skips, oldCount)
      modifies data
      ensures HoldsRows(data[..], Kept(rows, skips, |rows|))
      ensures Linked(data[..], 0, 0)
    {
      ghost var kept := Kept(rows, skips, |rows|);
      KeptCount(rows, skips, |rows|, |skips|);
      KeptFit(rows, skips);
      var total := oldCount - |skips|;
      StartLeaf(0, 0);
      var writePos := PAGE_HEADER_SIZE + total * 2;
      var dst, skipPtr := 0, 0;
      for src := 0 to oldCount
        invariant skipPtr <= |skips| && forall i :: 0 <= i < |skips| ==> (skips[i] < src <==> i < skipPtr)
        invariant dst == |Kept(rows, skips, src)| <= |kept|
        invariant Linked(data[..], 0, 0) && Packed(data[..], kept, dst)
        invariant writePos == Start(kept, dst)
      {
        KeptStep(rows, skips, src);
        assert src in skips ==> skipPtr < |skips| && skips[skipPtr] == src by { NextSkip(skips, src, skipPtr); }
        if skipPtr < |skips| && skips[skipPtr] == src {
          skipPtr := skipPtr + 1;
        } else {
          BoundsRead(snapshot, rows, src);
          writePos := PutRow(kept, ReadRow(snapshot, src), dst, writePos, 0, 0);
          dst := dst + 1;
        }
      }
      Finish(kept, total, writePos, 0, 0);
    }

    /** Bytes the rows take once the replacements are in. */
    method ReplacedSize(snapshot: seq<Byte>, oldCount: nat, repls: seq<Replacement>, ghost rows: seq<seq<Byte>>) returns (size: nat)
      requires HoldsRows(snapshot, rows) && oldCount == |rows| && Rising(repls, oldCount)
      ensures size == Len(Replaced(rows, repls))
    {
      ghost var target := Replaced(rows, repls);
      size := 0;
      var p: nat := 0;
      for src := 0 to oldCount
        invariant p <= |repls| && forall i :: 0 <= i < |repls| ==> (repls[i].index < src <==> i < p)
        invariant size == Len(target[..src])
      {
        LenStep(target, src);
        var row;
        row, p := ReplacedRow(snapshot, oldCount, repls, src, p, rows);
        size := size + |row|;
      }
      assert target[..|target|] == target;
    }

    /** Row `src` after replacement, and the next replacement to come. */
    method ReplacedRow(snapshot: seq<Byte>, oldCount: nat, repls: seq<Replacement>, src: nat, p: nat, ghost rows: seq<seq<Byte>>)
      returns (row: seq<Byte>, q: nat)
      requires HoldsRows(snapshot, rows) && oldCount == |rows| && Rising(repls, oldCount) && src < oldCount
      requires p <= |repls| && forall i :: 0 <= i < |repls| ==> (repls[i].index < src <==> i < p)
      ensures row == Replaced(rows, repls)[src]
      ensures q <= |repls| && forall i :: 0 <= i < |repls| ==> (repls[i].index < src + 1 <==> i < q)
    {
      if p < |repls| && repls[p].index == src {
        row, q := repls[p].row, p + 1;
      } else {
        BoundsRead(snapshot, rows, src);
        row, q := snapshot[RowOffset(snapshot, src)..RowEnd(snapshot, src, oldCount)], p;
      }
    }

    /** Refuses, changing nothing, exactly when the replaced rows do not fit. */
    method WriteLeafWithReplacements(snapshot: seq<Byte>, oldCount: nat, repls: seq<Replacement>, crc: nat, ghost rows: seq<seq<Byte>>)
      returns (ok: bool)
      requires data.Length == PAGE_SIZE && HoldsRows(snapshot, rows) && oldCount == |rows| && Rising(repls, oldCount)
      modifies data
      ensures ok <==> RowsFit(Replaced(rows, repls))
      ensures ok ==> HoldsRows(data[..], Replaced(rows, repls)) && Linked(data[..], NextLeaf(snapshot), PrevLeaf(snapshot))
      ensures !ok ==> data[..] == old(data[..])
    {
      ghost var target := Replaced(rows, repls);
      assert target[..|target|] == target;
      var size := ReplacedSize(snapshot, oldCount, repls, rows);
      var dataStart := PAGE_HEADER_SIZE + oldCount * 2;
      if dataStart + size + CHECKSUM_SIZE > PAGE_SIZE { return false; }
      var savedNext, savedPrev := Link(snapshot, 8), Link(snapshot, 12);
      StartLeaf(savedNext, savedPrev);
      var writePos := dataStart;
      var p: nat := 0;
      for src := 0 to oldCount
        invariant p <= |repls| && forall i :: 0 <= i < |repls| ==> (repls[i].index < src <==> i < p)
        invariant Linked(data[..], savedNext, savedPrev) && Packed(data[..], target, src)
        invariant writePos == Start(target, src)
      {
        var row;
        row, p := ReplacedRow(snapshot, oldCount, repls, src, p, rows);
        writePos := PutRow(target, row, src, writePos, savedNext, savedPrev);
      }
      Finish(target, oldCount, writePos, savedNext, savedPrev);
      Seal(crc, target, savedNext, savedPrev);
      ok := true;
    }

    /** Entry `i` of a branch: a child, then the key that bounds it from above. */
    method WriteBranchEntry(i: nat, child: nat, key: nat)
      requires data.Length == PAGE_SIZE && i < MAX_BRANCH_KEYS && child < Pow256(4) && key < Pow256(8)
      modifies data
      ensures EntryAt(data[..], i, child, key)
      ensures forall c, k, j: nat :: j < i && EntryAt(old(data[..]), j, c, k) ==> EntryAt(data[..], j, c, k)
      ensures data[..PAGE_HEADER_SIZE] == old(data[..PAGE_HEADER_SIZE])
    {
      var at := PAGE_HEADER_SIZE + i * BRANCH_ENTRY_SIZE;
      EntryWritten(data[..], i, child, key);
      Put(at, Le(child, 4));
      Put(at + 4, Le(key, 8));
    }

    method RebuildBranchFlat(children: seq<nat>, keys: seq<nat>)
      requires data.Length == PAGE_SIZE && |children| == |keys| + 1 && |keys| <= MAX_BRANCH_KEYS
      requires forall i :: 0 <= i < |keys| ==> keys[i] < Pow256(8)
      requires forall i :: 0 <= i < |children| ==> children[i] < Pow256(4)
      modifies data
      ensures HoldsBranch(data[..], children, keys)
    {
      StartBranch(|keys|);
      ghost var h := data[..];
      for i := 0 to |keys|
        invariant data[..PAGE_HEADER_SIZE] == h[..PAGE_HEADER_SIZE]
        invariant forall j: nat :: j < i ==> EntryAt(data[..], j, children[j], keys[j])
      {
        WriteBranchEntry(i, children[i], keys[i]);
      }
      var last, at := |keys|, PAGE_HEADER_SIZE + |keys| * BRANCH_ENTRY_SIZE;
      ghost var d := data[..];
      Put(at, Le(children[last], 4));
      FieldWritten(d, at, children[last], 4);
      forall j: nat | j < last ensures EntryAt(data[..], j, children[j], keys[j]) {
        EntryKept(d, j, children[j], keys[j], at, Le(children[last], 4));
      }
      BranchHeader(h, data[..], |keys|);
    }

    method StartBranch(count: nat)
      requires data.Length == PAGE_SIZE && count < 0x1_0000
      modifies data
      ensures Flags(data[..]) == PAGE_BRANCH && NumRows(data[..]) == count
      ensures forall i :: PAGE_HEADER_SIZE <= i < DATA_END ==> data[i] == 0
    {
      PowValues();
      ghost var d := data[..];
      Put(2, Le(PAGE_BRANCH, 2));
      FieldWritten(d, 2, PAGE_BRANCH, 2);
      ghost var d1 := data[..];
      Put(4, Le(count, 2));
      FieldWritten(d1, 4, count, 2);
      SpliceApart(d1, 4, Le(count, 2), 2, 4);
      ghost var h := data[..];
      for i := PAGE_HEADER_SIZE to DATA_END
        invariant data[..PAGE_HEADER_SIZE] == h[..PAGE_HEADER_SIZE]
        invariant forall j :: PAGE_HEADER_SIZE <= j < i ==> data[j] == 0
      {
        data[i] := 0;
      }
      BranchHeader(h, data[..], count);
    }

    /** Reads a branch back. */
    method CollectBranchFlat(ghost children: seq<nat>, ghost keys: seq<nat>) returns (cs: seq<nat>, ks: seq<nat>)
      requires data.Length == PAGE_SIZE && HoldsBranch(data[..], children, keys)
      ensures cs == children && ks == keys
    {
      cs, ks := [], [];
      var n := NumRows(data[..]);
      for i := 0 to n
        invariant cs == children[..i] && ks == keys[..i]
      {
        assert EntryAt(data[..], i, children[i], keys[i]);
        var at := PAGE_HEADER_SIZE + i * BRANCH_ENTRY_SIZE;
        cs := cs + [Field(data[..], at, 4)];
        ks := ks + [Field(data[..], at + 4, 8)];
      }
      cs := cs + [Field(data[..], PAGE_HEADER_SIZE + n * BRANCH_ENTRY_SIZE, 4)];
    }

    /** A new separator and the child on its right, inserted into a branch page with room. */
    method InsertBranchEntry(childIdx: nat, key: nat, newChild: nat, ghost children: seq<nat>, ghost keys: seq<nat>)
      requires data.Length == PAGE_SIZE && HoldsBranch(data[..], children, keys)
      requires childIdx <= |keys| < MAX_BRANCH_KEYS && key < Pow256(8) && newChild < Pow256(4)
      modifies data
      ensures HoldsBranch(data[..], children[..childIdx + 1] + [newChild] + children[childIdx + 1..],
                          keys[..childIdx] + [key] + keys[childIdx..])
    {
      var cs, ks := CollectBranchFlat(children, keys);
      BranchBounded(data[..], children, keys);
      RebuildBranchFlat(cs[..childIdx + 1] + [newChild] + cs[childIdx + 1..], ks[..childIdx] + [key] + ks[childIdx..]);
    }
  }

  const BRANCH_ENTRY_SIZE := 12
  const MAX_BRANCH_KEYS := (PAGE_SIZE - PAGE_HEADER_SIZE - 4 - CHECKSUM_SIZE) / BRANCH_ENTRY_SIZE

  ghost predicate EntryAt(d: seq<Byte>, i: nat, child: nat, key: nat) {
    var at := PAGE_HEADER_SIZE + i * BRANCH_ENTRY_SIZE;
    at + BRANCH_ENTRY_SIZE <= |d| && Field(d, at, 4) == child && Field(d, at + 4, 8) == key
  }

  ghost predicate HoldsBranch(d: seq<Byte>, children: seq<nat>, keys: seq<nat>) {
    && |d| == PAGE_SIZE && Flags(d) == PAGE_BRANCH && NumRows(d) == |keys| <= MAX_BRANCH_KEYS
    && |children| == |keys| + 1
    && (forall i: nat :: i < |keys| ==> EntryAt(d, i, children[i], keys[i]))
    && Field(d, PAGE_HEADER_SIZE + |keys| * BRANCH_ENTRY_SIZE, 4) == children[|keys|]
  }

  lemma EntryKept(d: seq<Byte>, i: nat, child: nat, key: nat, off: nat, bytes: seq<Byte>)
    requires EntryAt(d, i, child, key) && off + |bytes| <= |d| && off >= PAGE_HEADER_SIZE + (i + 1) * BRANCH_ENTRY_SIZE
    ensures EntryAt(Splice(d, off, bytes), i, child, key)
  {
    var at := PAGE_HEADER_SIZE + i * BRANCH_ENTRY_SIZE;
    SpliceApart(d, off, bytes, at, at + 4);
    SpliceApart(d, off, bytes, at + 4, at + 12);
  }

  lemma EntryWritten(d: seq<Byte>, i: nat, child: nat, key: nat)
    requires |d| == PAGE_SIZE && i < MAX_BRANCH_KEYS && child < Pow256(4) && key < Pow256(8)
    ensures var at := PAGE_HEADER_SIZE + i * BRANCH_ENTRY_SIZE;
            var s := Splice(Splice(d, at, Le(child, 4)), at + 4, Le(key, 8));
            && EntryAt(s, i, child, key)
            && (forall c, k, j: nat :: j < i && EntryAt(d, j, c, k) ==> EntryAt(s, j, c, k))
            && s[..PAGE_HEADER_SIZE] == d[..PAGE_HEADER_SIZE]
  {
    var at := PAGE_HEADER_SIZE + i * BRANCH_ENTRY_SIZE;
    var d1 := Splice(d, at, Le(child, 4));
    var s := Splice(d1, at + 4, Le(key, 8));
    FieldWritten(d, at, child, 4);
    FieldWritten(d1, at + 4, key, 8);
    SpliceApart(d1, at + 4, Le(key, 8), at, at + 4);
    SpliceApart(d, at, Le(child, 4), 0, PAGE_HEADER_SIZE);
    SpliceApart(d1, at + 4, Le(key, 8), 0, PAGE_HEADER_SIZE);
    forall c, k, j: nat | j < i && EntryAt(d, j, c, k) ensures EntryAt(s, j, c, k) {
      EntryKept(d, j, c, k, at, Le(child, 4));
      EntryKept(d1, j, c, k, at + 4, Le(key, 8));
    }
  }

  lemma BranchHeader(h: seq<Byte>, d: seq<Byte>, count: nat)
    requires |h| == PAGE_SIZE && Flags(h) == PAGE_BRANCH && NumRows(h) == count
    requires |d| == PAGE_SIZE && d[..PAGE_HEADER_SIZE] == h[..PAGE_HEADER_SIZE]
    ensures Flags(d) == PAGE_BRANCH && NumRows(d) == count
  {
    assert d[2..4] == d[..PAGE_HEADER_SIZE][2..4] && h[2..4] == h[..PAGE_HEADER_SIZE][2..4];
    assert d[4..6] == d[..PAGE_HEADER_SIZE][4..6] && h[4..6] == h[..PAGE_HEADER_SIZE][4..6];
  }

  lemma BranchBounded(d: seq<Byte>, children: seq<nat>, keys: seq<nat>)
    requires HoldsBranch(d, children, keys)
    ensures forall i :: 0 <= i < |keys| ==> keys[i] < Pow256(8)
    ensures forall i :: 0 <= i < |children| ==> children[i] < Pow256(4)
  {
    forall i: nat | i < |keys| ensures keys[i] < Pow256(8) && children[i] < Pow256(4) {
      assert EntryAt(d, i, children[i], keys[i]);
      FieldBound(d, PAGE_HEADER_SIZE + i * BRANCH_ENTRY_SIZE, 4);
      FieldBound(d, PAGE_HEADER_SIZE + i * BRANCH_ENTRY_SIZE + 4, 8);
    }
    FieldBound(d, PAGE_HEADER_SIZE + |keys| * BRANCH_ENTRY_SIZE, 4);
  }

  function Link(d: seq<Byte>, off: nat): (p: nat)
    requires |d| == PAGE_SIZE && off + 4 <= PAGE_SIZE
    ensures p < 0x1_0000_0000
  {
    FieldBound(d, off, 4);
    PowValues();
    Field(d, off, 4)
  }

  lemma LeafHeader(d: seq<Byte>, next: nat, prev: nat)
    requires |d| == PAGE_SIZE && next < 0x1_0000_0000 && prev < 0x1_0000_0000
    ensures Linked(Splice(Splice(Splice(Splice(d, 2, Le(PAGE_LEAF, 2)), 4, Le(0, 2)), 8, Le(next, 4)), 12, Le(prev, 4)), next, prev)
  {
    PowValues();
    var d1 := Splice(d, 2, Le(PAGE_LEAF, 2));
    var d2 := Splice(d1, 4, Le(0, 2));
    var d3 := Splice(d2, 8, Le(next, 4));
    FieldWritten(d, 2, PAGE_LEAF, 2);
    FieldWritten(d2, 8, next, 4);
    FieldWritten(d3, 12, prev, 4);
    SpliceApart(d1, 4, Le(0, 2), 2, 4);
    SpliceApart(d2, 8, Le(next, 4), 2, 4);
    SpliceApart(d3, 12, Le(prev, 4), 2, 4);
    SpliceApart(d3, 12, Le(prev, 4), 8, 12);
  }

  lemma HeaderOnly(h: seq<Byte>, d: seq<Byte>, next: nat, prev: nat)
    requires Linked(h, next, prev) && |d| == PAGE_SIZE && d[..PAGE_HEADER_SIZE] == h[..PAGE_HEADER_SIZE]
    ensures Linked(d, next, prev)
  {
    assert d[2..4] == d[..PAGE_HEADER_SIZE][2..4] && h[2..4] == h[..PAGE_HEADER_SIZE][2..4];
    assert d[8..12] == d[..PAGE_HEADER_SIZE][8..12] && h[8..12] == h[..PAGE_HEADER_SIZE][8..12];
    assert d[12..16] == d[..PAGE_HEADER_SIZE][12..16] && h[12..16] == h[..PAGE_HEADER_SIZE][12..16];
  }

  lemma FinishKeeps(d: seq<Byte>, rows: seq<seq<Byte>>, next: nat, prev: nat)
    requires Linked(d, next, prev) && Packed(d, rows, |rows|)
    ensures Start(rows, |rows|) <= DATA_END
    ensures var s := Splice(Splice(d, 4, Le(|rows|, 2)), 6, Le(Start(rows, |rows|), 2));
            Linked(s, next, prev) && HoldsRows(s, rows)
  {
    assert rows[..|rows|] == rows;
    var n, e := Le(|rows|, 2), Le(Start(rows, |rows|), 2);
    CountsWritten(d, |rows|, Start(rows, |rows|));
    PackedKept(d, rows, |rows|, 4, n);
    PackedKept(Splice(d, 4, n), rows, |rows|, 6, e);
    LinkedKept(d, next, prev, 4, n);
    LinkedKept(Splice(d, 4, n), next, prev, 6, e);
  }

  lemma CountsWritten(d: seq<Byte>, n: nat, e: nat)
    requires |d| == PAGE_SIZE && n < 0x1_0000 && e < 0x1_0000
    ensures var s := Splice(Splice(d, 4, Le(n, 2)), 6, Le(e, 2)); NumRows(s) == n && FreeOffset(s) == e
  {
    PowValues();
    var d1 := Splice(d, 4, Le(n, 2));
    FieldWritten(d, 4, n, 2);
    FieldWritten(d1, 6, e, 2);
    SpliceApart(d1, 6, Le(e, 2), 4, 6);
  }

  lemma DroppedFit(rows: seq<seq<Byte>>, p: nat)
    requires RowsFit(rows) && p < |rows|
    ensures RowsFit(rows[..p] + rows[p + 1..])
  {
    LenConcat(rows[..p], rows[p + 1..]);
    LenConcat(rows[..p + 1], rows[p + 1..]);
    CutAt(rows, p + 1);
    LenStep(rows, p);
  }

  lemma {:induction false} KeptLen(rows: seq<seq<Byte>>, skips: seq<nat>, n: nat)
    requires n <= |rows|
    ensures |Kept(rows, skips, n)| <= n && Len(Kept(rows, skips, n)) <= Len(rows[..n])
  {
    if n > 0 {
      KeptLen(rows, skips, n - 1);
      LenStep(rows, n - 1);
      LenConcat(Kept(rows, skips, n - 1), [rows[n - 1]]);
      LenConcat(Kept(rows, skips, n - 1), []);
      assert Len([rows[n - 1]]) == |rows[n - 1]| + Len([rows[n - 1]][1..]);
    }
  }

  lemma KeptFit(rows: seq<seq<Byte>>, skips: seq<nat>)
    requires RowsFit(rows)
    ensures RowsFit(Kept(rows, skips, |rows|))
  {
    var kept := Kept(rows, skips, |rows|);
    KeptLen(rows, skips, |rows|);
    assert rows[..|rows|] == rows;
  }
}
