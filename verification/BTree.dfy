/**
 * The B+ tree as a value: what one insert or delete makes of it, page numbers and byte
 * sizes included. Row pages hold rows keyed by rowid; an index tree is the same tree with
 * keys ranked by byte order and a smaller branch capacity.
 */
module BTree {
  import opened Bytes
  import opened Overflow
  import opened LeafSplit

  datatype Entry = Entry(id: nat, data: seq<Byte>)
  datatype LeafRec = LeafRec(page: nat, rows: seq<Entry>)
  datatype Tree = Leaf(leaf: LeafRec) | Branch(page: nat, keys: seq<nat>, kids: seq<Tree>)

  /** Branch capacities: (4096 - 16 - 4 - 4) / 12 for rowid keys, / 42 for index keys. */
  const ROW_BRANCH_KEYS := (PAGE_SIZE - PAGE_HEADER_SIZE - 4 - CHECKSUM_SIZE) / 12
  const INDEX_BRANCH_KEYS := (PAGE_SIZE - PAGE_HEADER_SIZE - 4 - CHECKSUM_SIZE) / 42

  // ----- rows of a leaf -----

  ghost predicate Sorted(rows: seq<Entry>) {
    forall i, j :: 0 <= i < j < |rows| ==> rows[i].id < rows[j].id
  }

  function Sizes(rows: seq<Entry>): (s: seq<nat>)
    ensures |s| == |rows|
  {
    seq(|rows|, i requires 0 <= i < |rows| => |rows[i].data|)
  }

  /** The first position whose id is not below `id`. */
  function LowerBound(rows: seq<Entry>, id: nat): (pos: nat)
    ensures pos <= |rows|
    ensures forall i :: 0 <= i < pos ==> rows[i].id < id
    ensures pos < |rows| ==> rows[pos].id >= id
  {
    if rows == [] || rows[0].id >= id then 0 else 1 + LowerBound(rows[1..], id)
  }

  predicate Contains(rows: seq<Entry>, id: nat) {
    var pos := LowerBound(rows, id);
    pos < |rows| && rows[pos].id == id
  }

  function Insert(rows: seq<Entry>, e: Entry): seq<Entry> {
    var pos := LowerBound(rows, e.id);
    rows[..pos] + [e] + rows[pos..]
  }

  function Remove(rows: seq<Entry>, id: nat): seq<Entry> {
    var pos := LowerBound(rows, id);
    if Contains(rows, id) then rows[..pos] + rows[pos + 1..] else rows
  }

  // ----- operations -----

  /** What a leaf stores for a row when page numbers from `next` on are free. */
  function StoredForm(e: Entry, next: nat): Entry {
    if |e.data| > MAX_SINGLE_ROW then Entry(e.id, Inline(e.data, next)) else e
  }

  /** Overflow pages the row takes before anything else is allocated. */
  function OverflowCount(e: Entry): nat {
    if |e.data| > MAX_SINGLE_ROW then PagesFor(|e.data| - INLINE_DATA_LEN) else 0
  }

  /** `Overrun`: a half of a leaf split would not fit its page. */
  datatype Outcome =
    | Fit(t: Tree, next: nat)
    | Split(left: Tree, separator: nat, right: Tree, next: nat)
    | Duplicate
    | Overrun

  function SplitPoint(e: Entry, sizes: seq<nat>): (mid: nat)
    requires |sizes| >= 2
    ensures 1 <= mid < |sizes|
  {
    if |e.data| > MAX_SINGLE_ROW then OverflowSplitPoint(sizes) else |sizes| / 2
  }

  /** Rows `all` on two pages, cut at `mid`; the right one is the new page `free`. */
  function LeafCut(page: nat, all: seq<Entry>, mid: nat, free: nat): Outcome
    requires mid < |all|
  {
    if ValidSplit(Sizes(all), mid) then
      Split(Leaf(LeafRec(page, all[..mid])), all[mid].id, Leaf(LeafRec(free, all[mid..])), free + 1)
    else Overrun
  }

  function LeafInsert(x: LeafRec, e: Entry, next: nat): Outcome {
    if Contains(x.rows, e.id) then Duplicate
    else
      var all := Insert(x.rows, StoredForm(e, next));
      var free := next + OverflowCount(e);
      if Fits(Sizes(all)) then Fit(Leaf(LeafRec(x.page, all)), free)
      else
        SingleFits(all);
        LeafCut(x.page, all, SplitPoint(e, Sizes(all)), free)
  }

  /** The child a key is routed to: the first separator above it, else the last child. */
  function ChildIndex(keys: seq<nat>, id: nat): (i: nat)
    ensures i <= |keys|
    ensures forall j :: 0 <= j < i ==> keys[j] <= id
    ensures i < |keys| ==> id < keys[i]
  {
    if keys == [] || id < keys[0] then 0 else 1 + ChildIndex(keys[1..], id)
  }

  /** Every branch has one child more than keys. */
  predicate Shaped(t: Tree) {
    t.Branch? ==> |t.kids| == |t.keys| + 1 && forall k :: k in t.kids ==> Shaped(k)
  }

  /** A branch takes the two halves of child `i`, splitting itself when it is full. */
  function BranchInsert(
      p: nat, keys: seq<nat>, kids: seq<Tree>, i: nat,
      left: Tree, separator: nat, right: Tree, cap: nat, next: nat): Outcome
    requires i <= |keys| && |kids| == |keys| + 1
  {
    var newKeys := keys[..i] + [separator] + keys[i..];
    var newKids := kids[..i] + [left, right] + kids[i + 1..];
    if |keys| < cap then Fit(Branch(p, newKeys, newKids), next)
    else
      var mid := |newKeys| / 2;
      Split(
        Branch(p, newKeys[..mid], newKids[..mid + 1]), newKeys[mid],
        Branch(next, newKeys[mid + 1..], newKids[mid + 1..]), next + 1)
  }

  /** What a branch makes of the outcome at its child `i`. */
  function Absorb(p: nat, keys: seq<nat>, kids: seq<Tree>, i: nat, o: Outcome, cap: nat): Outcome
    requires i <= |keys| && |kids| == |keys| + 1
  {
    match o
    case Fit(k, n) => Fit(Branch(p, keys, kids[i := k]), n)
    case Split(l, s, r, n) => BranchInsert(p, keys, kids, i, l, s, r, cap, n)
    case Duplicate => Duplicate
    case Overrun => Overrun
  }

  function TreeInsert(t: Tree, e: Entry, cap: nat, next: nat): Outcome
    requires Shaped(t)
  {
    match t
    case Leaf(x) => LeafInsert(x, e, next)
    case Branch(p, keys, kids) =>
      var i := ChildIndex(keys, e.id);
      Absorb(p, keys, kids, i, TreeInsert(kids[i], e, cap, next), cap)
  }

  /** A split of the root grows a new root. */
  function RootInsert(t: Tree, e: Entry, cap: nat, next: nat): Outcome
    requires Shaped(t)
  {
    GrowRoot(TreeInsert(t, e, cap, next))
  }

  function GrowRoot(o: Outcome): Outcome {
    match o
    case Split(l, s, r, n) => Fit(Branch(n, [s], [l, r]), n + 1)
    case other => other
  }

  /** Deletion rewrites one leaf and never merges. */
  function TreeDelete(t: Tree, id: nat): Tree
    requires Shaped(t)
  {
    match t
    case Leaf(x) => Leaf(LeafRec(x.page, Remove(x.rows, id)))
    case Branch(p, keys, kids) =>
      var i := ChildIndex(keys, id);
      Branch(p, keys, kids[i := TreeDelete(kids[i], id)])
  }

  datatype Found = NotFound | Found(data: seq<Byte>)

  function RowsSearch(rows: seq<Entry>, id: nat): Found {
    if Contains(rows, id) then Found(rows[LowerBound(rows, id)].data) else NotFound
  }

  function TreeSearch(t: Tree, id: nat): Found
    requires Shaped(t)
  {
    match t
    case Leaf(x) => RowsSearch(x.rows, id)
    case Branch(p, keys, kids) => TreeSearch(kids[ChildIndex(keys, id)], id)
  }

  // ----- what a tree must look like -----

  /** The half-open key range of child `i`. */
  function Bound(keys: seq<nat>, lo: nat, hi: nat, i: nat): nat {
    if i == 0 then lo else if i <= |keys| then keys[i - 1] else hi
  }

  /** The fewest keys a branch keeps after a split. */
  function MinKeys(cap: nat): nat {
    var k := cap - (cap + 1) / 2;
    if k > 0 then k else 0
  }

  /**
   * All leaves at depth `h`, every key inside the range its separators give it, leaves
   * sorted and within a page, branches within capacity and above the minimum fill.
   */
  ghost predicate Wf(t: Tree, h: nat, lo: nat, hi: nat, cap: nat, min: nat) {
    match t
    case Leaf(x) =>
      && h == 0 && lo < hi
      && Sorted(x.rows)
      && (forall i :: 0 <= i < |x.rows| ==> lo <= x.rows[i].id < hi)
      && Fits(Sizes(x.rows))
    case Branch(p, keys, kids) =>
      && h > 0
      && |kids| == |keys| + 1
      && min <= |keys| <= cap
      && (forall i :: 0 <= i <= |keys| ==> Bound(keys, lo, hi, i) < Bound(keys, lo, hi, i + 1))
      && (forall i :: 0 <= i < |kids| ==>
           Wf(kids[i], h - 1, Bound(keys, lo, hi, i), Bound(keys, lo, hi, i + 1), cap, MinKeys(cap)))
  }

  lemma {:induction false} WfShaped(t: Tree, h: nat, lo: nat, hi: nat, cap: nat, min: nat)
    requires Wf(t, h, lo, hi, cap, min)
    ensures Shaped(t) && lo < hi
    decreases t
  {
    if t.Branch? {
      forall i | 0 <= i < |t.kids| ensures Shaped(t.kids[i]) {
        WfShaped(t.kids[i], h - 1, Bound(t.keys, lo, hi, i), Bound(t.keys, lo, hi, i + 1), cap, MinKeys(cap));
      }
      BoundsRise(t.keys, lo, hi, 0, |t.keys| + 1);
    }
  }

  lemma {:induction false} BoundsRise(keys: seq<nat>, lo: nat, hi: nat, i: nat, j: nat)
    requires i < j <= |keys| + 1
    requires forall k :: 0 <= k <= |keys| ==> Bound(keys, lo, hi, k) < Bound(keys, lo, hi, k + 1)
    ensures Bound(keys, lo, hi, i) < Bound(keys, lo, hi, j)
    decreases j - i
  {
    if i + 1 < j { BoundsRise(keys, lo, hi, i + 1, j); }
    assert Bound(keys, lo, hi, i) < Bound(keys, lo, hi, i + 1);
  }

  lemma SingleFits(all: seq<Entry>)
    requires !Fits(Sizes(all))
    ensures |all| >= 1
    ensures |all| == 1 ==> |all[0].data| > MAX_SINGLE_ROW
  {
    if |all| == 1 { SumOne(|all[0].data|); assert Sizes(all) == [|all[0].data|]; }
  }
}
