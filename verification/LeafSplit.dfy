/** Byte accounting of leaf pages and the choice of a split point. */
module LeafSplit {
  import opened Seqs
  import opened Overflow

  function Sum(s: seq<nat>): nat {
    if s == [] then 0 else s[0] + Sum(s[1..])
  }

  /** Bytes of a leaf page with rows of these sizes: header, offset array, rows, checksum. */
  function LeafSize(s: seq<nat>): nat {
    PAGE_HEADER_SIZE + 2 * |s| + Sum(s) + CHECKSUM_SIZE
  }

  predicate Fits(s: seq<nat>) {
    LeafSize(s) <= PAGE_SIZE
  }

  predicate ValidSplit(s: seq<nat>, m: nat) {
    1 <= m < |s| && Fits(s[..m]) && Fits(s[m..])
  }

  lemma {:induction false} SumConcat(a: seq<nat>, b: seq<nat>)
    ensures Sum(a + b) == Sum(a) + Sum(b)
  {
    if a == [] {
      EmptyFront(a, b);
    } else {
      SumConcat(a[1..], b);
      TailOfConcat(a, b);
    }
  }

  lemma SumCut(s: seq<nat>, m: nat)
    requires m <= |s|
    ensures Sum(s) == Sum(s[..m]) + Sum(s[m..])
  {
    SumConcat(s[..m], s[m..]);
    CutAt(s, m);
  }

  lemma SumOne(v: nat)
    ensures Sum([v]) == v
  {
    assert [v][1..] == [];
  }

  /** A longer left half is never smaller, and its right half never larger. */
  lemma CutMonotone(s: seq<nat>, m: nat, n: nat)
    requires m <= n <= |s|
    ensures LeafSize(s[..m]) <= LeafSize(s[..n])
    ensures LeafSize(s[n..]) <= LeafSize(s[m..])
  {
    SumCut(s[..n], m);
    assert s[..n][..m] == s[..m];
    SumCut(s[m..], n - m);
    assert s[m..][n - m..] == s[n..];
  }

  // ----- the split point for a page-filling row -----

  /** The greedy scan: the last `mid` before the first left half that is too large. */
  function Greedy(s: seq<nat>, best: nat, mid: nat): (m: nat)
    requires best <= mid
    requires best < |s|
    ensures best <= m < |s|
    decreases |s| - mid
  {
    if mid < |s| && Fits(s[..mid]) then Greedy(s, mid, mid + 1) else best
  }

  /** The fallback scan for the first split whose halves both fit, if any. */
  function FirstValid(s: seq<nat>, mid: nat): (m: nat)
    requires |s| >= 2 && mid >= 1
    ensures 1 <= m < |s|
    ensures forall i :: mid <= i < |s| && ValidSplit(s, i) ==> mid <= m <= i
    ensures (exists i :: mid <= i < |s| && ValidSplit(s, i)) ==> ValidSplit(s, m)
    decreases |s| - mid
  {
    if mid >= |s| then |s| / 2
    else if Fits(s[..mid]) && Fits(s[mid..]) then mid
    else FirstValid(s, mid + 1)
  }

  function OverflowSplitPoint(s: seq<nat>): (m: nat)
    requires |s| >= 2
    ensures 1 <= m < |s|
  {
    var best := Greedy(s, 1, 1);
    if Fits(s[best..]) then best else FirstValid(s, 1)
  }

  lemma {:induction false} GreedyIsLargest(s: seq<nat>, best: nat, mid: nat, m: nat)
    requires best <= mid <= best + 1 && best < |s|
    requires m < |s| && Fits(s[..m])
    ensures m <= best || m <= Greedy(s, best, mid)
    ensures Fits(s[..best]) ==> Fits(s[..Greedy(s, best, mid)])
    decreases |s| - mid
  {
    if mid < |s| && Fits(s[..mid]) {
      GreedyIsLargest(s, mid, mid + 1, m);
    } else if m > best {
      CutMonotone(s, mid, m);
    }
  }

  /** The chosen point is valid exactly when some valid point exists: the greedy choice is complete. */
  lemma SplitPointComplete(s: seq<nat>)
    requires |s| >= 2
    ensures ValidSplit(s, OverflowSplitPoint(s)) <==> exists m :: ValidSplit(s, m)
  {
    var best := Greedy(s, 1, 1);
    if m :| ValidSplit(s, m) {
      GreedyIsLargest(s, 1, 1, m);
      CutMonotone(s, 1, m);
      CutMonotone(s, m, best);
    }
  }

  /** The fallback scan is dead: when the greedy point fails, no split is valid. */
  lemma FallbackNeverHelps(s: seq<nat>, m: nat)
    requires |s| >= 2 && !Fits(s[Greedy(s, 1, 1)..])
    ensures !ValidSplit(s, m)
    ensures OverflowSplitPoint(s) == |s| / 2
  {
    forall i: nat ensures !ValidSplit(s, i) {
      if ValidSplit(s, i) {
        GreedyIsLargest(s, 1, 1, i);
        CutMonotone(s, i, Greedy(s, 1, 1));
      }
    }
    FirstValidNone(s, 1);
  }

  lemma {:induction false} FirstValidNone(s: seq<nat>, mid: nat)
    requires |s| >= 2 && mid >= 1
    requires forall i :: !ValidSplit(s, i)
    ensures FirstValid(s, mid) == |s| / 2
    decreases |s| - mid
  {
    if mid < |s| {
      assert !ValidSplit(s, mid);
      FirstValidNone(s, mid + 1);
    }
  }

  /**
   * A row that fills a page by itself can be split off a leaf that was full enough to
   * need it exactly when it goes to one end of the leaf.
   */
  lemma PageFillingRowSplits(rows: seq<nat>, pos: nat)
    requires pos <= |rows| && rows != [] && Fits(rows)
    requires forall i :: 0 <= i < |rows| ==> rows[i] > 0
    ensures var all := rows[..pos] + [MAX_SINGLE_ROW] + rows[pos..];
            ValidSplit(all, OverflowSplitPoint(all)) <==> pos == 0 || pos == |rows|
  {
    var all := rows[..pos] + [MAX_SINGLE_ROW] + rows[pos..];
    SplitPointComplete(all);
    assert Sum([MAX_SINGLE_ROW]) == MAX_SINGLE_ROW + Sum([]);
    if pos == 0 {
      assert all[..1] == [MAX_SINGLE_ROW] && all[1..] == rows;
      assert ValidSplit(all, 1);
    } else if pos == |rows| {
      assert all[..pos] == rows && all[pos..] == [MAX_SINGLE_ROW];
      assert ValidSplit(all, pos);
    } else {
      forall m: nat ensures !ValidSplit(all, m) {
        if 1 <= m < |all| {
          if m <= pos {
            CutMonotone(all, m, pos);
            assert all[pos..] == [MAX_SINGLE_ROW] + rows[pos..];
            SumConcat([MAX_SINGLE_ROW], rows[pos..]);
          } else {
            CutMonotone(all, pos + 1, m);
            assert all[..pos + 1] == rows[..pos] + [MAX_SINGLE_ROW];
            SumConcat(rows[..pos], [MAX_SINGLE_ROW]);
          }
        }
      }
    }
  }

  lemma SumStep(s: seq<nat>, m: nat)
    requires m < |s|
    ensures Sum(s[..m + 1]) == Sum(s[..m]) + s[m]
  {
    SumCut(s[..m + 1], m);
    assert s[..m + 1][..m] == s[..m] && s[..m + 1][m..] == [s[m]];
  }

  /** The sizes of the rows of a leaf with a new one inserted. */
  method VirtualSizes(oldSizes: seq<nat>, insertPos: nat, newLen: nat) returns (sizes: seq<nat>)
    requires insertPos <= |oldSizes|
    ensures sizes == oldSizes[..insertPos] + [newLen] + oldSizes[insertPos..]
  {
    sizes := [];
    for vi := 0 to |oldSizes| + 1
      invariant sizes == (oldSizes[..insertPos] + [newLen] + oldSizes[insertPos..])[..vi]
    {
      if vi == insertPos {
        sizes := sizes + [newLen];
      } else {
        var orig := if vi < insertPos then vi else vi - 1;
        sizes := sizes + [oldSizes[orig]];
      }
    }
  }

  method LargestLeft(sizes: seq<nat>) returns (best: nat)
    requires |sizes| >= 2
    ensures best == Greedy(sizes, 1, 1)
  {
    best := 1;
    var dataSum := 0;
    var mid := 1;
    while mid < |sizes|
      invariant 1 <= mid <= |sizes| && best < |sizes| && best <= mid
      invariant dataSum == Sum(sizes[..mid - 1])
      invariant Greedy(sizes, best, mid) == Greedy(sizes, 1, 1)
    {
      SumStep(sizes, mid - 1);
      dataSum := dataSum + sizes[mid - 1];
      if PAGE_HEADER_SIZE + mid * 2 + dataSum + CHECKSUM_SIZE > PAGE_SIZE {
        break;
      }
      best := mid;
      mid := mid + 1;
    }
  }

  method FirstValidScan(sizes: seq<nat>) returns (point: nat)
    requires |sizes| >= 2
    ensures point == FirstValid(sizes, 1)
  {
    var dataSum := sizes[0];
    var mid := 1;
    SumOne(sizes[0]);
    assert sizes[..1] == [sizes[0]];
    while mid < |sizes|
      invariant 1 <= mid <= |sizes|
      invariant dataSum == Sum(sizes[..mid])
      invariant FirstValid(sizes, mid) == FirstValid(sizes, 1)
    {
      var rightData := SumLoop(sizes[mid..]);
      if PAGE_HEADER_SIZE + mid * 2 + dataSum + CHECKSUM_SIZE <= PAGE_SIZE
        && PAGE_HEADER_SIZE + (|sizes| - mid) * 2 + rightData + CHECKSUM_SIZE <= PAGE_SIZE
      {
        return mid;
      }
      SumStep(sizes, mid);
      dataSum := dataSum + sizes[mid];
      mid := mid + 1;
    }
    return |sizes| / 2;
  }

  method FindOverflowSplitPoint(oldSizes: seq<nat>, insertPos: nat, newLen: nat) returns (mid: nat)
    requires insertPos <= |oldSizes| && oldSizes != []
    ensures mid == OverflowSplitPoint(oldSizes[..insertPos] + [newLen] + oldSizes[insertPos..])
  {
    var sizes := VirtualSizes(oldSizes, insertPos, newLen);
    mid := LargestLeft(sizes);
    var rightData := SumLoop(sizes[mid..]);
    if PAGE_HEADER_SIZE + (|sizes| - mid) * 2 + rightData + CHECKSUM_SIZE > PAGE_SIZE {
      mid := FirstValidScan(sizes);
    }
  }

  method SumLoop(s: seq<nat>) returns (total: nat)
    ensures total == Sum(s)
  {
    total := 0;
    for i := 0 to |s|
      invariant total == Sum(s[..i])
    {
      SumStep(s, i);
      total := total + s[i];
    }
    assert s[..|s|] == s;
  }

  // ----- the count-midpoint split -----

  /** An encoded row holds at least the rowid and the column count. */
  const MIN_ROW := 10

  predicate Between(s: seq<nat>, low: nat, high: nat) {
    forall i :: 0 <= i < |s| ==> low <= s[i] <= high
  }

  lemma {:induction false} SumBounds(s: seq<nat>, low: nat, high: nat)
    requires Between(s, low, high)
    ensures low * |s| <= Sum(s) <= high * |s|
  {
    if s != [] {
      assert Between(s[1..], low, high);
      SumBounds(s[1..], low, high);
      OneMoreTimes(low, |s[1..]|);
      OneMoreTimes(high, |s[1..]|);
    }
  }

  lemma OneMoreTimes(v: nat, n: nat)
    ensures v * (n + 1) == v + v * n
  {
  }

  /** Inserting one row of the size class into a leaf that held the others. */
  predicate AlmostFits(all: seq<nat>, pos: nat) {
    pos < |all| && Fits(all[..pos] + all[pos + 1..])
  }

  lemma InsertedSum(all: seq<nat>, pos: nat)
    requires pos < |all|
    ensures Sum(all) == Sum(all[..pos] + all[pos + 1..]) + all[pos]
  {
    SumCut(all, pos);
    SumConcat(all[..pos], all[pos + 1..]);
    CutAround(all, pos);
  }

  lemma MidpointFits(all: seq<nat>, pos: nat)
    requires |all| >= 2 && Between(all, MIN_ROW, 214) && AlmostFits(all, pos)
    ensures ValidSplit(all, |all| / 2)
  {
    var m := |all| / 2;
    var left, right := all[..m], all[m..];
    InsertedSum(all, pos);
    SumCut(all, m);
    SumBounds(left, MIN_ROW, 214);
    SumBounds(right, MIN_ROW, 214);
  }

  function Repeat(n: nat, v: nat): (s: seq<nat>)
    ensures |s| == n && forall i :: 0 <= i < n ==> s[i] == v
  {
    seq(n, _ => v)
  }

  lemma {:induction false} SumRepeat(n: nat, v: nat)
    ensures Sum(Repeat(n, v)) == n * v
  {
    if n > 0 {
      SumRepeat(n - 1, v);
      assert Repeat(n, v)[1..] == Repeat(n - 1, v);
    }
  }

  /** 18 rows of 10 bytes and 18 rows totalling 3824: a leaf filled to the last byte. */
  function FullLeft(): seq<nat> { Repeat(18, 10) }

  function FullRight(): seq<nat> { Repeat(17, 215) + [169] }

  lemma FullSums()
    ensures Sum(FullLeft()) == 180 && Sum(FullRight()) == 3824
    ensures Sum(FullLeft() + FullRight()) == 4004
    ensures Sum(FullRight() + [215]) == 4039
  {
    SumRepeat(18, 10);
    SumRepeat(17, 215);
    SumOne(169);
    SumOne(215);
    SumConcat(Repeat(17, 215), [169]);
    SumConcat(FullLeft(), FullRight());
    SumConcat(FullRight(), [215]);
  }

  /** Appending one row of 215 bytes to that leaf makes the right half one byte too long. */
  lemma TightLeafBreaks()
    ensures var all := FullLeft() + FullRight() + [215];
            && |all| == 37 && Between(all, MIN_ROW, 215) && AlmostFits(all, 36)
            && !ValidSplit(all, 18)
  {
    FullSums();
    var all := FullLeft() + FullRight() + [215];
    assert all[18..] == FullRight() + [215];
    assert all[..36] + all[37..] == FullLeft() + FullRight();
  }

  ghost predicate MidpointAlwaysFits(high: nat) {
    forall all, pos :: |all| >= 2 && Between(all, MIN_ROW, high) && AlmostFits(all, pos) ==>
      ValidSplit(all, |all| / 2)
  }

  /** Splitting at half the row count is safe for a row size limit exactly up to 214 bytes. */
  lemma MidpointSafeUpTo214(high: nat)
    ensures MidpointAlwaysFits(high) <==> high <= 214
  {
    if high <= 214 {
      forall all, pos | |all| >= 2 && Between(all, MIN_ROW, high) && AlmostFits(all, pos)
        ensures ValidSplit(all, |all| / 2)
      {
        MidpointFits(all, pos);
      }
    } else {
      TightLeafBreaks();
    }
  }
}
