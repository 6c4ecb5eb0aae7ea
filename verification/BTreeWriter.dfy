/** The tree writer over staged pages, proved to do what `RootInsert` and `TreeDelete` say. */
module BTreeWriter {
  import opened Bytes
  import opened Overflow
  import opened LeafSplit
  import opened BTree
  import opened BTreeShape
  import opened BTreeLeaves
  import opened BTreePages
  import opened BTreeStored
  import opened BTreeRuns
  import opened Store

  const MAX_TREE_DEPTH := 64

  datatype WriteError = DuplicateKeyError | OverrunError | DepthError | AllocationError | CorruptPage
  datatype InsertResult = FitResult | SplitResult(newPage: nat, separator: nat) | Rejected(error: WriteError)

  /** The pages of an overflow chain as file pages. */
  ghost function AsPages(c: map<nat, OverPage>): Pages {
    map p | p in c :: OverflowPage(c[p])
  }

  lemma AsPagesUpdate(v: Pages, c: map<nat, OverPage>, p: nat, page: OverPage)
    ensures v + AsPages(c[p := page]) == (v + AsPages(c))[p := OverflowPage(page)]
  {
  }

  // ----- reading loops over one page -----

  /** Binary search in a leaf. */
  method FindInsertionPoint(rows: seq<Entry>, id: nat) returns (pos: nat, found: bool)
    requires Sorted(rows)
    ensures pos == LowerBound(rows, id) && found == Contains(rows, id)
  {
    var lo, hi := 0, |rows|;
    while lo < hi
      invariant lo <= hi <= |rows|
      invariant forall i :: 0 <= i < lo ==> rows[i].id < id
      invariant forall i :: hi <= i < |rows| ==> rows[i].id > id
    {
      var mid := lo + (hi - lo) / 2;
      if rows[mid].id < id {
        lo := mid + 1;
      } else if rows[mid].id > id {
        hi := mid;
      } else {
        BoundUnique(rows, id, mid);
        return mid, true;
      }
    }
    BoundUnique(rows, id, lo);
    return lo, false;
  }

  /** The first separator above the key, else the last child. */
  method FindChild(keys: seq<nat>, children: seq<nat>, id: nat) returns (i: nat, child: nat)
    requires |children| == |keys| + 1
    ensures i == ChildIndex(keys, id) && child == children[i]
  {
    for j := 0 to |keys|
      invariant forall k :: 0 <= k < j ==> keys[k] <= id
    {
      if id < keys[j] {
        ChildIndexUnique(keys, id, j);
        return j, children[j];
      }
    }
    ChildIndexUnique(keys, id, |keys|);
    return |keys|, children[|keys|];
  }

  lemma ChildIndexUnique(keys: seq<nat>, id: nat, i: nat)
    requires i <= |keys|
    requires forall k :: 0 <= k < i ==> keys[k] <= id
    requires i < |keys| ==> id < keys[i]
    ensures ChildIndex(keys, id) == i
  {
    var j := ChildIndex(keys, id);
    var least := if j < i then j else i;
    assert least < |keys| ==> keys[least] == keys[least];
  }

  method DataSize(rows: seq<Entry>) returns (size: nat)
    ensures size == Sum(Sizes(rows))
  {
    size := 0;
    for i := 0 to |rows|
      invariant size == Sum(Sizes(rows)[..i])
    {
      SumStep(Sizes(rows), i);
      size := size + |rows[i].data|;
    }
    assert Sizes(rows)[..|rows|] == Sizes(rows);
  }

  lemma InsertSize(rows: seq<Entry>, e: Entry)
    ensures LeafSize(Sizes(Insert(rows, e))) == LeafSize(Sizes(rows)) + 2 + |e.data|
  {
    var pos, s := LowerBound(rows, e.id), Sizes(Insert(rows, e));
    InsertedSum(s, pos);
    assert s[..pos] + s[pos + 1..] == Sizes(rows);
  }

  /** The rows of a leaf with an oversized row's inline part among them. */
  lemma InlineSizes(e: Entry, inline: seq<Byte>, rows: seq<Entry>, pos: nat, n: nat)
    requires |e.data| > MAX_SINGLE_ROW && inline == Inline(e.data, n) && pos == LowerBound(rows, e.id)
    ensures var all := rows[..pos] + [Entry(e.id, inline)] + rows[pos..];
            && all == Insert(rows, StoredForm(e, n))
            && LeafSize(Sizes(all)) == LeafSize(Sizes(rows)) + 2 + |inline|
            && Sizes(all) == Sizes(rows)[..pos] + [|inline|] + Sizes(rows)[pos..]
            && (!Fits(Sizes(all)) ==> |all| >= 2 && rows != [])
  {
    var all := rows[..pos] + [Entry(e.id, inline)] + rows[pos..];
    InsertSize(rows, Entry(e.id, inline));
    if !Fits(Sizes(all)) { SingleFits(all); }
  }

  lemma ChunkCount(len: nat, k: nat)
    requires k * OVERFLOW_PAYLOAD_MAX <= len
    ensures PagesFor(len) == k + PagesFor(len - k * OVERFLOW_PAYLOAD_MAX)
  {
    if k > 0 && len > OVERFLOW_PAYLOAD_MAX { ChunkCount(len - OVERFLOW_PAYLOAD_MAX, k - 1); }
  }

  /** What is left of a payload after `k` full chunks. */
  function Rest(tail: seq<Byte>, k: nat): seq<Byte> {
    if k * OVERFLOW_PAYLOAD_MAX < |tail| then tail[k * OVERFLOW_PAYLOAD_MAX..] else []
  }

  /** Putting chunk `k - 1` in front of the chain of the rest. */
  lemma RestStep(tail: seq<Byte>, k: nat, base: nat)
    requires k > 0 && (k - 1) * OVERFLOW_PAYLOAD_MAX < |tail|
    ensures var from := (k - 1) * OVERFLOW_PAYLOAD_MAX;
            var to := if from + OVERFLOW_PAYLOAD_MAX < |tail| then from + OVERFLOW_PAYLOAD_MAX else |tail|;
            var rest := Rest(tail, k);
            && PagesFor(|Rest(tail, k - 1)|) == PagesFor(|rest|) + 1 <= PagesFor(|tail|)
            && Chain(Rest(tail, k - 1), base) ==
               Chain(rest, base)[base + PagesFor(|rest|) := OverPage(tail[from..to], ChainHead(|rest|, base))]
  {
    var from := (k - 1) * OVERFLOW_PAYLOAD_MAX;
    var longer := Rest(tail, k - 1);
    var cut := if |longer| > OVERFLOW_PAYLOAD_MAX then OVERFLOW_PAYLOAD_MAX else |longer|;
    assert longer[cut..] == Rest(tail, k);
    assert longer[..cut] == tail[from..from + cut];
    ChunkCount(|tail|, k - 1);
  }

  /** The chain of `rest` has been written from page `base` on. */
  ghost predicate ChainWritten(rest: seq<Byte>, base: nat, v: Pages, first: nat, next: nat, w: Pages) {
    first == ChainHead(|rest|, base) && next == base + PagesFor(|rest|) && w == v + AsPages(Chain(rest, base))
  }

  /** Nothing is written before the last chunk. */
  lemma ChainStarts(tail: seq<Byte>, k: nat, base: nat, v: Pages)
    requires k == (|tail| + OVERFLOW_PAYLOAD_MAX - 1) / OVERFLOW_PAYLOAD_MAX
    ensures (k - 1) * OVERFLOW_PAYLOAD_MAX < |tail| || k == 0
    ensures ChainWritten(Rest(tail, k), base, v, 0, base, v)
  {
    assert Rest(tail, k) == [];
    assert AsPages(Chain([], base)) == map[];
  }

  /** Writing chunk `k - 1` makes the chain one chunk longer. */
  lemma ChainGrows(tail: seq<Byte>, k: nat, base: nat, v: Pages, first: nat, w: Pages)
    requires k > 0 && (k - 1) * OVERFLOW_PAYLOAD_MAX < |tail|
    requires ChainWritten(Rest(tail, k), base, v, first, base + PagesFor(|Rest(tail, k)|), w)
    ensures var from := (k - 1) * OVERFLOW_PAYLOAD_MAX;
            var to := if from + OVERFLOW_PAYLOAD_MAX < |tail| then from + OVERFLOW_PAYLOAD_MAX else |tail|;
            var next := base + PagesFor(|Rest(tail, k)|);
            && next + 1 <= base + PagesFor(|tail|)
            && ChainWritten(Rest(tail, k - 1), base, v, next, next + 1, w[next := OverflowPage(OverPage(tail[from..to], first))])
  {
    var from := (k - 1) * OVERFLOW_PAYLOAD_MAX;
    var to := if from + OVERFLOW_PAYLOAD_MAX < |tail| then from + OVERFLOW_PAYLOAD_MAX else |tail|;
    RestStep(tail, k, base);
    AsPagesUpdate(v, Chain(Rest(tail, k), base), base + PagesFor(|Rest(tail, k)|), OverPage(tail[from..to], first));
  }

  // ----- what a writing method leaves in the pages -----

  /** A chain of distinct leaf pages, none of them the null page. */
  ghost predicate Linked(v: Pages, ps: seq<nat>) {
    Chained(v, ps) && NoDup(ps) && 0 !in ps
  }

  predicate Reports(r: InsertResult, o: Outcome) {
    match o
    case Fit(_, _) => r.FitResult?
    case Split(_, s, right, _) => r == SplitResult(Root(right), s)
    case Duplicate => r == Rejected(DuplicateKeyError)
    case Overrun => r == Rejected(OverrunError)
  }

  /** The trees of an outcome are in the pages, the first of them where the old tree was. */
  ghost predicate HoldsOut(w: Pages, o: Outcome, page: nat) {
    && (o.Fit? ==> Holds(w, o.t) && Root(o.t) == page)
    && (o.Split? ==> Holds(w, o.left) && Holds(w, o.right) && Root(o.left) == page)
  }

  ghost predicate Staged(w: Pages, chain: map<nat, OverPage>) {
    forall p :: p in chain ==> p in w && w[p] == OverflowPage(chain[p])
  }

  /**
   * An insertion of `e` under way at a subtree: page numbers from `n` on are free, `v` are the
   * pages on entry, and the leaf chain has the pages `before` the subtree's and `after` them.
   */
  datatype Site = Site(e: Entry, n: nat, v: Pages, before: seq<nat>, after: seq<nat>)

  /** The leaf page following the subtree, and the one preceding it. */
  function Succ(s: Site): nat { At(s.after, 0) }

  function Pred(s: Site): nat { At(s.before, |s.before| - 1) }

  /** The next free page once the overflow pages of the row are allocated. */
  function Free(s: Site): nat { s.n + OverflowCount(s.e) }

  /**
   * The pages are now `w`, as outcome `o` at subtree `t` demands: the new subtree stored, the
   * leaf chain spliced, overflow pages staged, everything else as it was but for the back
   * link of the leaf behind.
   */
  ghost predicate Written(s: Site, t: Tree, r: InsertResult, o: Outcome, w: Pages, next: nat) {
    && Reports(r, o)
    && (o.Duplicate? ==> w == s.v && next == s.n)
    && (Done(o) ==>
         && next == OutNext(o)
         && HoldsOut(w, o, Root(t))
         && Linked(w, s.before + LeafPages(OutFringe(o)) + s.after)
         && FrameBut(s.v, w, t, Succ(s))
         && Staged(w, RowChain(s.e, s.n)))
  }

  /** The same, or page numbers have run out: exactly when the outcome needs more than there are. */
  ghost predicate Tried(s: Site, t: Tree, r: InsertResult, o: Outcome, w: Pages, next: nat) {
    && (r == Rejected(AllocationError) <==> PagesEnd(o, s.e, s.n) > MAX_PAGES)
    && (r != Rejected(AllocationError) ==> Written(s, t, r, o, w, next))
  }

  ghost function AfterSplit(
      v: Pages, page: nat, all: seq<Entry>, mid: nat, next: nat, prev: nat, fresh_: nat): Pages
    requires mid < |all|
    requires next != 0 ==> next in v && v[next].LeafPage?
  {
    var w := v[page := LeafPage(all[..mid], fresh_, prev)][fresh_ := LeafPage(all[mid..], next, page)];
    if next != 0 then w[next := v[next].(prev := fresh_)] else w
  }

  lemma AtLinks(v: Pages, before: seq<nat>, page: nat, after: seq<nat>)
    requires Linked(v, before + [page] + after)
    ensures page in v && v[page].LeafPage?
    ensures v[page].next == At(after, 0) && v[page].prev == At(before, |before| - 1)
    ensures At(after, 0) != 0 ==> At(after, 0) in v && v[At(after, 0)].LeafPage? && At(after, 0) != page
  {
    var ps, n := before + [page] + after, |before|;
    assert ps[n] == page && At(ps, n + 1) == At(after, 0) && At(ps, n - 1) == At(before, n - 1);
    if after != [] { assert ps[n + 1] == after[0]; }
  }

  lemma Overwritten(v: Pages, p: nat, q: nat, a: Page, b: Page, c: Page)
    requires p != q
    ensures v[p := a][q := b][p := c] == v[q := b][p := c]
  {
  }

  /** Before writing leaf `x`: `u` are the pages on entry with overflow pages staged. */
  ghost predicate Prepared(s: Site, x: LeafRec, u: Pages) {
    && s.n > 0 && Linked(s.v, s.before + [x.page] + s.after)
    && (forall p :: p in s.v ==> p in u && u[p] == s.v[p])
    && (forall p :: p in s.v ==> p < s.n)
    && Staged(u, RowChain(s.e, s.n))
    && x.page in s.v && s.v[x.page] == LeafPage(x.rows, Succ(s), Pred(s))
  }

  lemma PreparedToStage(s: Site, x: LeafRec)
    requires s.n > 0 && Linked(s.v, s.before + [x.page] + s.after) && forall p :: p in s.v ==> p < s.n
    requires x.page in s.v && s.v[x.page].LeafPage? && s.v[x.page].rows == x.rows
    ensures Prepared(s, x, s.v + AsPages(RowChain(s.e, s.n)))
    ensures |s.e.data| <= MAX_SINGLE_ROW ==> Prepared(s, x, s.v)
  {
    AtLinks(s.v, s.before, x.page, s.after);
    if |s.e.data| > MAX_SINGLE_ROW { ChainKeys(s.e.data[INLINE_DATA_LEN..], s.n); }
  }

  /** Where the page numbers run to when the row goes into leaf `x`. */
  lemma LeafEnd(x: LeafRec, e: Entry, n: nat)
    requires !Contains(x.rows, e.id)
    ensures var o := LeafInsert(x, e, n);
            PagesEnd(o, e, n) == n + OverflowCount(e) + if Fits(Sizes(Insert(x.rows, StoredForm(e, n)))) then 0 else 1
  {
    var all := Insert(x.rows, StoredForm(e, n));
    if !Fits(Sizes(all)) { SingleFits(all); }
  }

  lemma FitWritten(s: Site, x: LeafRec, u: Pages, w: Pages)
    requires LeafInsert(x, s.e, s.n).Fit? && Prepared(s, x, u)
    requires w == u[x.page := s.v[x.page].(rows := Insert(x.rows, StoredForm(s.e, s.n)))]
    ensures Written(s, Leaf(x), FitResult, LeafInsert(x, s.e, s.n), w, Free(s))
  {
    var ps := s.before + [x.page] + s.after;
    assert LeafPages(OutFringe(LeafInsert(x, s.e, s.n))) == [x.page];
    ChainKept(s.v, w, ps);
    forall p | p in RowChain(s.e, s.n) ensures p != x.page { ChainKeys(s.e.data[INLINE_DATA_LEN..], s.n); }
    assert forall q :: Uses(Leaf(x), q) == 0 <==> q != x.page;
  }

  lemma SplitWritten(s: Site, x: LeafRec, u: Pages, w: Pages, all: seq<Entry>, mid: nat)
    requires LeafInsert(x, s.e, s.n).Split? && all == Insert(x.rows, StoredForm(s.e, s.n))
    requires Prepared(s, x, u)
    requires mid < |all| && mid == SplitPoint(s.e, Sizes(all))
    requires Succ(s) != 0 ==> Succ(s) in u && u[Succ(s)].LeafPage?
    requires w == AfterSplit(u, x.page, all, mid, Succ(s), Pred(s), Free(s))
    ensures Written(s, Leaf(x), SplitResult(Free(s), all[mid].id), LeafInsert(x, s.e, s.n), w, Free(s) + 1)
  {
    assert LeafPages(OutFringe(LeafInsert(x, s.e, s.n))) == [x.page, Free(s)];
    SplitLinks(s.v, u, w, x.page, all, mid, s.n, Free(s), s.before, s.after);
    forall p | p in RowChain(s.e, s.n) ensures s.n <= p < Free(s) { ChainKeys(s.e.data[INLINE_DATA_LEN..], s.n); }
    SplitFrames(s, u, w, x, all, mid);
  }

  /** Splicing the new leaf in behind the old one. */
  lemma SplitLinks(v: Pages, u: Pages, w: Pages, page: nat, all: seq<Entry>, mid: nat, n: nat, fresh_: nat, before: seq<nat>, after: seq<nat>)
    requires Linked(v, before + [page] + after) && (forall p :: p in v ==> p in u && u[p] == v[p]) && (forall p :: p in v ==> p < n)
    requires mid < |all| && 0 < n <= fresh_ && (var next := At(after, 0); next != 0 ==> next in u && u[next].LeafPage?)
    requires w == AfterSplit(u, page, all, mid, At(after, 0), At(before, |before| - 1), fresh_)
    ensures Linked(w, before + [page, fresh_] + after)
  {
    AtLinks(v, before, page, after);
    SplitApart(v, before, page, after, n);
    ChainSpliced(v, w, before, page, fresh_, after);
    LinkedGrows(before, page, fresh_, after);
  }

  /** Only the old leaf, the new one and the back link of the next change. */
  lemma SplitFrames(s: Site, u: Pages, w: Pages, x: LeafRec, all: seq<Entry>, mid: nat)
    requires Prepared(s, x, u) && mid < |all| && (Succ(s) != 0 ==> Succ(s) in u && u[Succ(s)].LeafPage?)
    requires w == AfterSplit(u, x.page, all, mid, Succ(s), Pred(s), Free(s))
    requires forall p :: p in RowChain(s.e, s.n) ==> s.n <= p < Free(s)
    ensures FrameBut(s.v, w, Leaf(x), Succ(s)) && Staged(w, RowChain(s.e, s.n))
    ensures Holds(w, Leaf(LeafRec(x.page, all[..mid]))) && Holds(w, Leaf(LeafRec(Free(s), all[mid..])))
  {
    AtLinks(s.v, s.before, x.page, s.after);
    assert forall q :: Uses(Leaf(x), q) == 0 <==> q != x.page;
  }

  /** The pages of a chain are distinct and below the next free page. */
  lemma SplitApart(v: Pages, before: seq<nat>, page: nat, after: seq<nat>, n: nat)
    requires Linked(v, before + [page] + after) && forall p :: p in v ==> p < n
    ensures forall i :: 0 <= i < |before| ==> before[i] in v && before[i] != page && before[i] != At(after, 0) && before[i] != 0
    ensures forall i :: 0 <= i < |after| ==> after[i] in v && after[i] != page && after[i] != 0
    ensures forall i :: 1 <= i < |after| ==> after[i] != At(after, 0)
    ensures forall p :: p in before + [page] + after ==> p < n
    ensures after != [] ==> v[after[0]].LeafPage? && v[after[0]].next == At(after, 1)
  {
    var ps, k := before + [page] + after, |before|;
    assert forall i :: 0 <= i < |before| ==> ps[i] == before[i];
    assert forall i :: 0 <= i < |after| ==> ps[k + 1 + i] == after[i];
    assert ps[k] == page;
    if after != [] { assert ps[k + 1] == after[0] && At(ps, k + 2) == At(after, 1); }
  }

  lemma LinkedGrows(before: seq<nat>, page: nat, fresh_: nat, after: seq<nat>)
    requires NoDup(before + [page] + after) && 0 !in before + [page] + after
    requires fresh_ !in before + [page] + after && fresh_ != 0
    ensures NoDup(before + [page, fresh_] + after) && 0 !in before + [page, fresh_] + after
  {
    var ps, qs, k := before + [page] + after, before + [page, fresh_] + after, |before|;
    assert forall i :: 0 <= i <= k ==> qs[i] == ps[i];
    assert forall i :: k + 1 < i < |qs| ==> qs[i] == ps[i - 1];
  }

  // ----- what a branch does with its child's result -----

  lemma {:induction false} SomeKidUses(kids: seq<Tree>, q: nat) returns (i: nat)
    requires UsesAll(kids, q) > 0
    ensures i < |kids| && Uses(kids[i], q) > 0
  {
    if Uses(kids[0], q) > 0 {
      i := 0;
    } else {
      i := SomeKidUses(kids[1..], q);
      i := i + 1;
    }
  }

  lemma {:induction false} HeldPages(v: Pages, t: Tree, q: nat)
    requires Holds(v, t) && Uses(t, q) > 0
    ensures q in v
    decreases t
  {
    if t.Branch? && q != t.page {
      var i := SomeKidUses(t.kids, q);
      HeldPages(v, t.kids[i], q);
    }
  }

  lemma LeafPagesConcat(a: seq<LeafRec>, b: seq<LeafRec>)
    ensures LeafPages(a + b) == LeafPages(a) + LeafPages(b)
  {
  }

  /** The leaf pages of the other children, on either side of child `i`. */
  ghost function LeftOf(t: Tree, i: nat): seq<nat>
    requires t.Branch? && i < |t.kids|
  {
    LeafPages(Fringes(t.kids[..i]))
  }

  ghost function RightOf(t: Tree, i: nat): seq<nat>
    requires t.Branch? && i < |t.kids|
  {
    LeafPages(Fringes(t.kids[i + 1..]))
  }

  lemma LeafPagesAround(t: Tree, i: nat)
    requires t.Branch? && i < |t.kids|
    ensures LeafPages(Fringe(t)) == LeftOf(t, i) + LeafPages(Fringe(t.kids[i])) + RightOf(t, i)
  {
    FringesAround(t.kids, i);
    LeafPagesConcat(Fringes(t.kids[..i]) + Fringe(t.kids[i]), Fringes(t.kids[i + 1..]));
    LeafPagesConcat(Fringes(t.kids[..i]), Fringe(t.kids[i]));
  }

  lemma AbsorbLeafPages(t: Tree, i: nat, o: Outcome, cap: nat)
    requires t.Branch? && |t.kids| == |t.keys| + 1 && i <= |t.keys| && Done(o)
    ensures LeafPages(OutFringe(Absorb(t.page, t.keys, t.kids, i, o, cap))) ==
      LeftOf(t, i) + LeafPages(OutFringe(o)) + RightOf(t, i)
  {
    AbsorbFringe(t.page, t.keys, t.kids, i, o, cap);
    LeafPagesConcat(Fringes(t.kids[..i]) + OutFringe(o), Fringes(t.kids[i + 1..]));
    LeafPagesConcat(Fringes(t.kids[..i]), OutFringe(o));
  }

  /** The insertion as child `i` of `t` sees it. */
  ghost function KidSite(s: Site, t: Tree, i: nat): Site
    requires t.Branch? && i < |t.kids|
  {
    s.(before := s.before + LeftOf(t, i), after := RightOf(t, i) + s.after)
  }

  /** Child `i` of `t` has been written. */
  ghost predicate KidWritten(s: Site, t: Tree, i: nat, r: InsertResult, o: Outcome, w: Pages, next: nat) {
    && t.Branch? && |t.kids| == |t.keys| + 1 && i <= |t.keys|
    && Holds(s.v, t) && (forall q :: Uses(t, q) <= 1)
    && (forall p :: p in s.v ==> 0 <= p < s.n) && (forall p :: p in w ==> 0 <= p < next)
    && Written(KidSite(s, t, i), t.kids[i], r, o, w, next)
    && (Done(o) ==> forall q :: OutUses(o, q) <= Uses(t.kids[i], q) + OneIn(q, s.n, next))
  }

  /** The leaf behind a child is a page of the branch, or the leaf behind the branch. */
  lemma KidSucc(s: Site, t: Tree, i: nat)
    requires t.Branch? && i < |t.kids|
    ensures Uses(t, Succ(KidSite(s, t, i))) > 0 || Succ(KidSite(s, t, i)) == Succ(s)
  {
    var f := Fringes(t.kids[i + 1..]);
    if f != [] {
      FringesAround(t.kids, i);
      LeafIsNode(t, |Fringes(t.kids[..i])| + |Fringe(t.kids[i])|);
    } else {
      assert RightOf(t, i) + s.after == s.after;
    }
  }

  lemma KidDoneCommon(s: Site, t: Tree, i: nat, r: InsertResult, o: Outcome, w: Pages, next: nat, cap: nat)
    requires KidWritten(s, t, i, r, o, w, next) && Done(o)
    ensures Linked(w, s.before + LeafPages(OutFringe(Absorb(t.page, t.keys, t.kids, i, o, cap))) + s.after)
    ensures FrameBut(s.v, w, t, Succ(s)) && Staged(w, RowChain(s.e, s.n))
    ensures forall j :: 0 <= j < |t.kids| && j != i ==> Holds(w, t.kids[j]) && Uses(t.kids[j], t.page) == 0
    ensures Uses(t.kids[i], t.page) == 0
    ensures t.page in w && w[t.page] == BranchPage(t.keys, Roots(t.kids)) && t.page < s.n
  {
    AbsorbLeafPages(t, i, o, cap);
    Regroup(s.before, LeftOf(t, i), LeafPages(OutFringe(o)), RightOf(t, i), s.after);
    OtherKidsKept(t, i, s.v, w, Succ(KidSite(s, t, i)));
    forall j | 0 <= j < |t.kids| ensures Uses(t.kids[j], t.page) == 0 { KidUses(t, j, t.page); }
    KidSucc(s, t, i);
    KidFrame(s.v, w, t, i, Succ(KidSite(s, t, i)), Succ(s));
  }

  /** What child `i` leaves alone, the branch leaves alone. */
  lemma KidFrame(v: Pages, w: Pages, t: Tree, i: nat, next: nat, next': nat)
    requires t.Branch? && i < |t.kids| && FrameBut(v, w, t.kids[i], next) && (Uses(t, next) > 0 || next == next')
    ensures FrameBut(v, w, t, next')
  {
    forall q | q in v && Uses(t, q) == 0
      ensures q in w && (w[q] == v[q] || (q == next' && q != 0 && Relinked(v[q], w[q])))
    {
      KidUses(t, i, q);
    }
  }

  lemma AbsorbFitWritten(s: Site, t: Tree, i: nat, r: InsertResult, o: Outcome, w: Pages, next: nat, cap: nat)
    requires KidWritten(s, t, i, r, o, w, next) && o.Fit?
    ensures Written(s, t, FitResult, Absorb(t.page, t.keys, t.kids, i, o, cap), w, next)
  {
    KidDoneCommon(s, t, i, r, o, w, next, cap);
    assert Roots(t.kids[i := o.t]) == Roots(t.kids);
  }

  /** Writing page `p` leaves alone what does not use it. */
  lemma Untouched(w: Pages, p: nat, page: Page, k: Tree)
    requires Holds(w, k) && Uses(k, p) == 0
    ensures Holds(w[p := page], k)
  {
    HoldsFrame(w, w[p := page], k);
  }

  lemma LinkedUntouched(w: Pages, p: nat, page: Page, ps: seq<nat>)
    requires Linked(w, ps) && (p in w ==> !w[p].LeafPage?)
    ensures Linked(w[p := page], ps)
  {
  }

  /** The keys and children of a branch around a split child. */
  function SplicedKeys(keys: seq<nat>, i: nat, s: nat): seq<nat>
    requires i <= |keys|
  {
    keys[..i] + [s] + keys[i..]
  }

  function SplicedChildren(children: seq<nat>, i: nat, c: nat): seq<nat>
    requires i < |children|
  {
    children[..i + 1] + [c] + children[i + 1..]
  }

  lemma SplicedRoots(kids: seq<Tree>, i: nat, l: Tree, r: Tree)
    requires i < |kids| && Root(l) == Root(kids[i])
    ensures Roots(kids[..i] + [l, r] + kids[i + 1..]) == SplicedChildren(Roots(kids), i, Root(r))
  {
  }

  lemma RootsCut(kids: seq<Tree>, m: nat)
    requires m <= |kids|
    ensures Roots(kids[..m]) == Roots(kids)[..m] && Roots(kids[m..]) == Roots(kids)[m..]
  {
  }

  /** After a child split, the children of the branch, old and new, are held and do not use its page. */
  lemma SplicedKidsHeld(s: Site, t: Tree, i: nat, r: InsertResult, o: Outcome, w: Pages, next: nat, cap: nat, kids: seq<Tree>)
    requires KidWritten(s, t, i, r, o, w, next) && o.Split?
    requires kids == t.kids[..i] + [o.left, o.right] + t.kids[i + 1..]
    ensures HoldsAll(w, kids) && forall j :: 0 <= j < |kids| ==> Uses(kids[j], t.page) == 0 && Uses(kids[j], next) == 0
  {
    KidDoneCommon(s, t, i, r, o, w, next, cap);
    forall j | 0 <= j < |kids|
      ensures Holds(w, kids[j]) && Uses(kids[j], t.page) == 0 && Uses(kids[j], next) == 0
    {
      if j < i {
        assert kids[j] == t.kids[j];
      } else if j > i + 1 {
        assert kids[j] == t.kids[j - 1];
      } else {
        assert OutUses(o, t.page) <= Uses(t.kids[i], t.page) + OneIn(t.page, s.n, next);
      }
      if Uses(kids[j], next) > 0 { HeldPages(w, kids[j], next); }
    }
  }

  lemma AllUntouched(w: Pages, p: nat, page: Page, kids: seq<Tree>)
    requires HoldsAll(w, kids) && forall j :: 0 <= j < |kids| ==> Uses(kids[j], p) == 0
    ensures HoldsAll(w[p := page], kids)
  {
    forall j | 0 <= j < |kids| ensures Holds(w[p := page], kids[j]) { Untouched(w, p, page, kids[j]); }
  }

  /** The pages a branch writes when it takes in a split child. */
  ghost function BranchPages(
      w: Pages, page: nat, keys: seq<nat>, children: seq<nat>, i: nat, s: nat, c: nat, cap: nat, fresh_: nat): Pages
    requires |children| == |keys| + 1 && i <= |keys|
  {
    var keys', children' := SplicedKeys(keys, i, s), SplicedChildren(children, i, c);
    if |keys| < cap then w[page := BranchPage(keys', children')]
    else
      var mid := |keys'| / 2;
      w[page := BranchPage(keys'[..mid], children'[..mid + 1])]
       [fresh_ := BranchPage(keys'[mid + 1..], children'[mid + 1..])]
  }

  lemma BranchHeld(w: Pages, p: nat, keys: seq<nat>, kids: seq<Tree>)
    requires HoldsAll(w, kids) && forall j :: 0 <= j < |kids| ==> Uses(kids[j], p) == 0
    ensures Holds(w[p := BranchPage(keys, Roots(kids))], Branch(p, keys, kids))
  {
    AllUntouched(w, p, BranchPage(keys, Roots(kids)), kids);
  }

  /** A branch over the first `m` children on page `p` and one over the others on page `q`. */
  lemma BranchesHeld(w: Pages, p: nat, q: nat, left: seq<nat>, right: seq<nat>, kids: seq<Tree>, m: nat)
    requires HoldsAll(w, kids) && m <= |kids| && p != q
    requires forall j :: 0 <= j < |kids| ==> Uses(kids[j], p) == 0 && Uses(kids[j], q) == 0
    ensures var z := w[p := BranchPage(left, Roots(kids)[..m])][q := BranchPage(right, Roots(kids)[m..])];
            Holds(z, Branch(p, left, kids[..m])) && Holds(z, Branch(q, right, kids[m..]))
  {
    RootsCut(kids, m);
    var a, b := BranchPage(left, Roots(kids)[..m]), BranchPage(right, Roots(kids)[m..]);
    AllUntouched(w, p, a, kids);
    AllUntouched(w[p := a], q, b, kids);
  }

  /** Writing a page of `t` that is neither leaf nor overflow page disturbs nothing else. */
  lemma BranchRewritten(s: Site, w: Pages, t: Tree, p: nat, page: Page, ps: seq<nat>)
    requires FrameBut(s.v, w, t, Succ(s)) && Staged(w, RowChain(s.e, s.n)) && Linked(w, ps)
    requires p in w && w[p].BranchPage? && Uses(t, p) > 0
    ensures var z := w[p := page]; FrameBut(s.v, z, t, Succ(s)) && Staged(z, RowChain(s.e, s.n)) && Linked(z, ps)
  {
    LinkedUntouched(w, p, page, ps);
  }

  /** Nor does writing a page that was not there. */
  lemma PageAdded(s: Site, w: Pages, t: Tree, p: nat, page: Page, ps: seq<nat>)
    requires FrameBut(s.v, w, t, Succ(s)) && Staged(w, RowChain(s.e, s.n)) && Linked(w, ps) && p !in w
    ensures var z := w[p := page]; FrameBut(s.v, z, t, Succ(s)) && Staged(z, RowChain(s.e, s.n)) && Linked(z, ps)
  {
    LinkedUntouched(w, p, page, ps);
  }

  /** A branch page rewritten and a new one added beside it. */
  lemma BranchAndPage(s: Site, w: Pages, t: Tree, left: Page, p: nat, right: Page, ps: seq<nat>)
    requires t.Branch? && FrameBut(s.v, w, t, Succ(s)) && Staged(w, RowChain(s.e, s.n)) && Linked(w, ps)
    requires t.page in w && w[t.page].BranchPage? && p !in w
    ensures var z := w[t.page := left][p := right];
            FrameBut(s.v, z, t, Succ(s)) && Staged(z, RowChain(s.e, s.n)) && Linked(z, ps)
  {
    assert Uses(t, t.page) > 0;
    BranchRewritten(s, w, t, t.page, left, ps);
    PageAdded(s, w[t.page := left], t, p, right, ps);
  }

  /** A branch with room takes in a split child. */
  lemma AbsorbRoomWritten(s: Site, t: Tree, i: nat, r: InsertResult, o: Outcome, w: Pages, next: nat, cap: nat)
    requires KidWritten(s, t, i, r, o, w, next) && o.Split? && |t.keys| < cap
    ensures var z := BranchPages(w, t.page, t.keys, Roots(t.kids), i, o.separator, Root(o.right), cap, next);
            Written(s, t, FitResult, Absorb(t.page, t.keys, t.kids, i, o, cap), z, next)
  {
    var kids, keys := t.kids[..i] + [o.left, o.right] + t.kids[i + 1..], SplicedKeys(t.keys, i, o.separator);
    KidDoneCommon(s, t, i, r, o, w, next, cap);
    SplicedKidsHeld(s, t, i, r, o, w, next, cap, kids);
    SplicedRoots(t.kids, i, o.left, o.right);
    assert Uses(t, t.page) > 0;
    BranchHeld(w, t.page, keys, kids);
    BranchRewritten(s, w, t, t.page, BranchPage(keys, Roots(kids)),
                    s.before + LeafPages(OutFringe(Absorb(t.page, t.keys, t.kids, i, o, cap))) + s.after);
  }

  /** Both halves of a full branch are stored. */
  lemma HalvesHeld(w: Pages, p: nat, keys: seq<nat>, kids: seq<Tree>, i: nat, l: Tree, sep: nat, r: Tree, cap: nat, next: nat)
    requires |kids| == |keys| + 1 && i <= |keys| && |keys| >= cap >= 3 && p != next && Root(l) == Root(kids[i])
    requires var all := kids[..i] + [l, r] + kids[i + 1..];
             HoldsAll(w, all) && forall j :: 0 <= j < |all| ==> Uses(all[j], p) == 0 && Uses(all[j], next) == 0
    ensures HoldsOut(BranchPages(w, p, keys, Roots(kids), i, sep, Root(r), cap, next),
                     BranchInsert(p, keys, kids, i, l, sep, r, cap, next), p)
  {
    var all, keys' := kids[..i] + [l, r] + kids[i + 1..], SplicedKeys(keys, i, sep);
    var mid := |keys'| / 2;
    SplicedRoots(kids, i, l, r);
    BranchesHeld(w, p, next, keys'[..mid], keys'[mid + 1..], all, mid + 1);
  }

  /** A full branch is cut in two around its middle key. */
  lemma AbsorbFullWritten(s: Site, t: Tree, i: nat, r: InsertResult, o: Outcome, w: Pages, next: nat, cap: nat)
    requires KidWritten(s, t, i, r, o, w, next) && o.Split? && |t.keys| >= cap >= 3
    ensures var z := BranchPages(w, t.page, t.keys, Roots(t.kids), i, o.separator, Root(o.right), cap, next);
            var keys := SplicedKeys(t.keys, i, o.separator);
            Written(s, t, SplitResult(next, keys[|keys| / 2]), Absorb(t.page, t.keys, t.kids, i, o, cap), z, next + 1)
  {
    var children, keys := SplicedChildren(Roots(t.kids), i, Root(o.right)), SplicedKeys(t.keys, i, o.separator);
    var mid := |keys| / 2;
    var left, right := BranchPage(keys[..mid], children[..mid + 1]), BranchPage(keys[mid + 1..], children[mid + 1..]);
    KidDoneCommon(s, t, i, r, o, w, next, cap);
    SplicedKidsHeld(s, t, i, r, o, w, next, cap, t.kids[..i] + [o.left, o.right] + t.kids[i + 1..]);
    HalvesHeld(w, t.page, t.keys, t.kids, i, o.left, o.separator, o.right, cap, next);
    BranchAndPage(s, w, t, left, next, right,
                  s.before + LeafPages(OutFringe(Absorb(t.page, t.keys, t.kids, i, o, cap))) + s.after);
  }

  lemma AbsorbPage(s: Site, t: Tree, i: nat, r: InsertResult, o: Outcome, w: Pages, next: nat, cap: nat)
    requires KidWritten(s, t, i, r, o, w, next) && r.SplitResult?
    ensures t.page in w && w[t.page] == BranchPage(t.keys, Roots(t.kids))
    ensures o.Split? && r == SplitResult(Root(o.right), o.separator)
  {
    KidDoneCommon(s, t, i, r, o, w, next, cap);
  }

  /** A child that split: what the branch makes of it. */
  lemma AbsorbTried(s: Site, t: Tree, i: nat, r: InsertResult, o: Outcome, w: Pages, next: nat, cap: nat,
                    r': InsertResult, z: Pages, next': nat)
    requires KidWritten(s, t, i, r, o, w, next) && o.Split? && next <= MAX_PAGES && cap >= 3
    requires r' == if |t.keys| < cap then FitResult
                   else if next >= MAX_PAGES then Rejected(AllocationError)
                   else SplitResult(next, SplicedKeys(t.keys, i, o.separator)[(|t.keys| + 1) / 2])
    requires !r'.Rejected? ==>
      && z == BranchPages(w, t.page, t.keys, Roots(t.kids), i, o.separator, Root(o.right), cap, next)
      && next' == if |t.keys| < cap then next else next + 1
    ensures Tried(s, t, r', Absorb(t.page, t.keys, t.kids, i, o, cap), z, next')
  {
    AbsorbEnd(t, i, o, cap, s.e, s.n);
    if |t.keys| < cap {
      AbsorbRoomWritten(s, t, i, r, o, w, next, cap);
    } else if next < MAX_PAGES {
      AbsorbFullWritten(s, t, i, r, o, w, next, cap);
    }
  }

  /** A child that did not split: its result is the branch's. */
  lemma AbsorbUnsplit(s: Site, t: Tree, i: nat, r: InsertResult, o: Outcome, w: Pages, next: nat, cap: nat)
    requires t.Branch? && |t.kids| == |t.keys| + 1 && i <= |t.keys| && !r.SplitResult?
    requires r == Rejected(AllocationError) <==> PagesEnd(o, s.e, s.n) > MAX_PAGES
    requires r != Rejected(AllocationError) ==> KidWritten(s, t, i, r, o, w, next)
    ensures Tried(s, t, r, Absorb(t.page, t.keys, t.kids, i, o, cap), w, next)
  {
    AbsorbEnd(t, i, o, cap, s.e, s.n);
    if r.FitResult? { AbsorbFitWritten(s, t, i, r, o, w, next, cap); }
  }

  /** What a branch allocates comes after what its child allocated. */
  lemma AbsorbEnd(t: Tree, i: nat, o: Outcome, cap: nat, e: Entry, n: nat)
    requires t.Branch? && |t.kids| == |t.keys| + 1 && i <= |t.keys|
    ensures PagesEnd(Absorb(t.page, t.keys, t.kids, i, o, cap), e, n) ==
      PagesEnd(o, e, n) + if o.Split? && |t.keys| >= cap then 1 else 0
  {
  }

  /** A subtree an insertion can go down: well formed, stored, its leaves in the chain where the site says. */
  ghost predicate Enters(s: Site, t: Tree, h: nat, lo: nat, hi: nat, cap: nat, min: nat) {
    && Shaped(t) && Wf(t, h, lo, hi, cap, min) && lo <= s.e.id < hi
    && Holds(s.v, t) && (forall q :: Uses(t, q) <= 1)
    && Linked(s.v, s.before + LeafPages(Fringe(t)) + s.after)
  }

  lemma KidReady(s: Site, t: Tree, h: nat, lo: nat, hi: nat, cap: nat, min: nat)
    requires t.Branch? && Enters(s, t, h, lo, hi, cap, min)
    ensures var i := ChildIndex(t.keys, s.e.id);
            h > 0 && |t.kids| == |t.keys| + 1 && i < |t.kids|
            && Enters(KidSite(s, t, i), t.kids[i], h - 1, Bound(t.keys, lo, hi, i), Bound(t.keys, lo, hi, i + 1), cap, MinKeys(cap))
  {
    var i := ChildIndex(t.keys, s.e.id);
    RouteInRange(t.keys, lo, hi, s.e.id);
    LeafPagesAround(t, i);
    Regroup(s.before, LeftOf(t, i), LeafPages(Fringe(t.kids[i])), RightOf(t, i), s.after);
    forall q ensures Uses(t.kids[i], q) <= 1 { KidUses(t, i, q); }
  }

  /** The page counts of the child's outcome, for every page. */
  lemma KidConserves(t: Tree, i: nat, e: Entry, n: nat, h: nat, lo: nat, hi: nat, cap: nat, min: nat)
    requires t.Branch? && Shaped(t) && Wf(t, h, lo, hi, cap, min) && i < |t.kids|
    ensures var o := TreeInsert(t.kids[i], e, cap, n);
            Done(o) ==> forall q :: OutUses(o, q) <= Uses(t.kids[i], q) + OneIn(q, n, OutNext(o))
  {
    var o := TreeInsert(t.kids[i], e, cap, n);
    forall q ensures Conserves(o, Uses(t.kids[i], q), n + OverflowCount(e), h - 1, q) {
      InsertConservesPages(t.kids[i], e, n, h - 1, Bound(t.keys, lo, hi, i), Bound(t.keys, lo, hi, i + 1), cap, MinKeys(cap), q);
    }
  }

  /** What an insertion at the root leaves behind: every page outside the tree is as it was. */
  ghost predicate RootWritten(s: Site, t: Tree, r: InsertResult, o: Outcome, w: Pages, next: nat, root: nat, root': nat) {
    && Reports(r, o)
    && (o.Fit? ==>
         && root' == Root(o.t) && next == o.next
         && Holds(w, o.t) && Linked(w, LeafPages(Fringe(o.t)))
         && Staged(w, RowChain(s.e, s.n)) && Frame(s.v, w, t))
    && (o.Duplicate? ==> w == s.v && next == s.n && root' == root)
  }

  /** The same, or page numbers have run out: exactly when the outcome needs more than there are. */
  ghost predicate RootTried(s: Site, t: Tree, r: InsertResult, o: Outcome, w: Pages, next: nat, root: nat, root': nat) {
    && (r == Rejected(AllocationError) <==> PagesEnd(o, s.e, s.n) > MAX_PAGES)
    && (r != Rejected(AllocationError) ==> RootWritten(s, t, r, o, w, next, root, root'))
  }

  lemma NoNeighbours(ps: seq<nat>)
    ensures [] + ps + [] == ps
  {
  }

  /** An insertion that did not split the root. */
  lemma RootKept(s: Site, t: Tree, r: InsertResult, o: Outcome, w: Pages, next: nat)
    requires Tried(s, t, r, o, w, next) && s.before == [] && s.after == [] && !r.SplitResult?
    ensures RootTried(s, t, r, GrowRoot(o), w, next, Root(t), Root(t))
  {
    NoNeighbours(LeafPages(OutFringe(o)));
  }

  lemma RootGrown(s: Site, t: Tree, o: Outcome, w: Pages, cap: nat, h: nat, hi: nat)
    requires Shaped(t) && Wf(t, h, 0, hi, cap, 1) && o == TreeInsert(t, s.e, cap, s.n) && o.Split?
    requires HoldsOut(w, o, Root(t)) && Linked(w, LeafPages(OutFringe(o))) && Frame(s.v, w, t) && Staged(w, RowChain(s.e, s.n))
    requires forall p :: p in w ==> p < o.next
    ensures var z := w[o.next := BranchPage([o.separator], [Root(o.left), Root(o.right)])];
            var g := GrowRoot(o);
            && Holds(z, g.t) && Linked(z, LeafPages(Fringe(g.t))) && Frame(s.v, z, t) && Staged(z, RowChain(s.e, s.n))
  {
    var page := BranchPage([o.separator], [Root(o.left), Root(o.right)]);
    if Uses(o.left, o.next) > 0 { HeldPages(w, o.left, o.next); }
    if Uses(o.right, o.next) > 0 { HeldPages(w, o.right, o.next); }
    Untouched(w, o.next, page, o.left);
    Untouched(w, o.next, page, o.right);
    FringeTwo(o.left, o.right);
    LinkedUntouched(w, o.next, page, LeafPages(OutFringe(o)));
    assert Roots([o.left, o.right]) == [Root(o.left), Root(o.right)];
  }

  /** The root split: the pages with a new root over its halves, or no page number left for one. */
  lemma RootSplit(s: Site, t: Tree, r: InsertResult, o: Outcome, w: Pages, cap: nat, h: nat, hi: nat)
    requires Shaped(t) && Wf(t, h, 0, hi, cap, 1) && o == TreeInsert(t, s.e, cap, s.n) && r.SplitResult?
    requires s.before == [] && s.after == [] && Written(s, t, r, o, w, OutNext(o)) && forall p :: p in w ==> p < OutNext(o)
    ensures o.Split? && r == SplitResult(Root(o.right), o.separator) && PagesEnd(GrowRoot(o), s.e, s.n) == o.next + 1
    ensures var z := w[o.next := BranchPage([o.separator], [Root(t), Root(o.right)])];
            RootWritten(s, t, FitResult, GrowRoot(o), z, o.next + 1, Root(t), o.next)
  {
    NoNeighbours(LeafPages(OutFringe(o)));
    RootGrown(s, t, o, w, cap, h, hi);
  }

  lemma KidDeleted(t: Tree, i: nat, id: nat, v: Pages, w: Pages)
    requires Shaped(t) && t.Branch? && i == ChildIndex(t.keys, id) && Holds(v, t) && Frame(v, w, t.kids[i])
    requires forall q :: Uses(t, q) <= 1
    requires Holds(w, TreeDelete(t.kids[i], id))
    ensures Holds(w, TreeDelete(t, id)) && Frame(v, w, t)
  {
    OtherKidsKept(t, i, v, w, 0);
    assert Roots(t.kids[i := TreeDelete(t.kids[i], id)]) == Roots(t.kids);
    forall q | q in v && Uses(t, q) == 0 ensures q in w && w[q] == v[q] { KidUses(t, i, q); }
  }

  /** A deletion keeps the list of leaf pages. */
  lemma DeleteKeepsLeaves(t: Tree, id: nat, h: nat, lo: nat, hi: nat, cap: nat, min: nat)
    requires Shaped(t) && Wf(t, h, lo, hi, cap, min) && lo <= id < hi
    ensures LeafPages(Fringe(TreeDelete(t, id))) == LeafPages(Fringe(t))
  {
    var b, x, a := Route(t, Entry(id, []), 0, h, lo, hi, cap, min);
  }

  /** New rows in a leaf whose links stay. */
  lemma RowsRewritten(v: Pages, t: Tree, page: nat, rows: seq<Entry>, ps: seq<nat>)
    requires t.Leaf? && page == t.leaf.page && page in v && v[page].LeafPage? && Linked(v, ps)
    ensures var w := v[page := v[page].(rows := rows)];
            Linked(w, ps) && Frame(v, w, t) && Holds(w, Leaf(LeafRec(page, rows)))
  {
    ChainKept(v, v[page := v[page].(rows := rows)], ps);
  }

  class BTreeWriter {
    const guard: WriteGuard
    var root: nat

    constructor (guard: WriteGuard, root: nat)
      ensures this.guard == guard && this.root == root
    {
      this.guard, this.root := guard, root;
    }

    /** A new tree: one empty leaf. */
    static method Create(guard: WriteGuard) returns (root: Option<nat>)
      requires guard.Valid()
      modifies guard
      ensures guard.Valid()
      ensures root == if old(guard.Next()) < MAX_PAGES then Some(old(guard.Next())) else None
      ensures root.Some? ==>
        guard.Next() == root.value + 1 && guard.View() == old(guard.View())[root.value := LeafPage([], 0, 0)]
      ensures root.None? ==> guard.Next() == old(guard.Next()) && guard.View() == old(guard.View())
    {
      root := guard.AllocatePage();
      if root.Some? { guard.PutPage(root.value, LeafPage([], 0, 0)); }
    }

    /** One page of an overflow chain. */
    method WriteChunk(chunk: seq<Byte>, next: nat) returns (page: Option<nat>)
      requires guard.Valid() && guard.Next() <= MAX_PAGES
      modifies guard
      ensures guard.Valid() && guard.Next() <= MAX_PAGES
      ensures page == if old(guard.Next()) < MAX_PAGES then Some(old(guard.Next())) else None
      ensures page.Some? ==> guard.Next() == page.value + 1
      ensures page.Some? ==> guard.View() == old(guard.View())[page.value := OverflowPage(OverPage(chunk, next))]
    {
      page := guard.AllocatePage();
      if page.Some? { guard.PutPage(page.value, OverflowPage(OverPage(chunk, next))); }
    }

    /** The chain for a payload, built from the last chunk to the first. */
    method WriteChain(tail: seq<Byte>) returns (first: Option<nat>)
      requires guard.Valid() && guard.Next() <= MAX_PAGES
      modifies guard
      ensures guard.Valid() && guard.Next() <= MAX_PAGES
      ensures first.None? <==> old(guard.Next()) + PagesFor(|tail|) > MAX_PAGES
      ensures first.Some? ==> ChainWritten(tail, old(guard.Next()), old(guard.View()), first.value, guard.Next(), guard.View())
    {
      ghost var base, v := guard.Next(), guard.View();
      var k: nat := (|tail| + OVERFLOW_PAYLOAD_MAX - 1) / OVERFLOW_PAYLOAD_MAX;
      var nextPage := 0;
      ChainStarts(tail, k, base, v);
      while k > 0
        invariant guard.Valid() && guard.Next() <= MAX_PAGES
        invariant k == 0 || (k - 1) * OVERFLOW_PAYLOAD_MAX < |tail|
        invariant ChainWritten(Rest(tail, k), base, v, nextPage, guard.Next(), guard.View())
      {
        ChainGrows(tail, k, base, v, nextPage, guard.View());
        k := k - 1;
        var from := k * OVERFLOW_PAYLOAD_MAX;
        var to := if from + OVERFLOW_PAYLOAD_MAX < |tail| then from + OVERFLOW_PAYLOAD_MAX else |tail|;
        var page := WriteChunk(tail[from..to], nextPage);
        if page.None? {
          return None;
        }
        nextPage := page.value;
      }
      assert Rest(tail, 0) == tail;
      return Some(nextPage);
    }

    /** The inline part of a row that does not fit, its remainder written to overflow pages. */
    method WriteOverflowRow(data: seq<Byte>) returns (inline: Option<seq<Byte>>)
      requires guard.Valid() && |data| > MAX_SINGLE_ROW && guard.Next() <= MAX_PAGES
      modifies guard
      ensures guard.Valid() && guard.Next() <= MAX_PAGES
      ensures inline.None? <==> old(guard.Next()) + PagesFor(|data| - INLINE_DATA_LEN) > MAX_PAGES
      ensures inline.Some? ==>
        && inline.value == Inline(data, old(guard.Next()))
        && guard.Next() == old(guard.Next()) + PagesFor(|data| - INLINE_DATA_LEN)
        && guard.View() == old(guard.View()) + AsPages(Chain(data[INLINE_DATA_LEN..], old(guard.Next())))
    {
      var first := WriteChain(data[INLINE_DATA_LEN..]);
      if first.None? {
        return None;
      }
      return Some(data[..INLINE_DATA_LEN] + Trailer(first.value, |data| - INLINE_DATA_LEN));
    }

    /** Cut the rows of a leaf in two, with the right part on the new page linked in behind. */
    method SplitLeaf(page: nat, all: seq<Entry>, mid: nat, next: nat, prev: nat, fresh_: nat)
      requires guard.Valid() && page < guard.Next() && fresh_ < guard.Next() && page != fresh_ && fresh_ != next && mid < |all|
      requires next != 0 ==> next in guard.View() && guard.View()[next].LeafPage? && next != page
      modifies guard
      ensures guard.Valid() && guard.Next() == old(guard.Next())
      ensures guard.View() == AfterSplit(old(guard.View()), page, all, mid, next, prev, fresh_)
    {
      ghost var v: Pages := guard.View();
      guard.Rewrite(page, LeafPage(all[..mid], fresh_, prev));
      guard.PutPage(fresh_, LeafPage(all[mid..], next, page));
      if next != 0 {
        var neighbour := guard.ReadPage(next);
        assert neighbour.value == v[next];
        guard.Rewrite(next, neighbour.value.(prev := fresh_));
      }
    }

    /** All rows, the new one included, on the one page. */
    method StoreFitting(all: seq<Entry>, next: nat, prev: nat, ghost s: Site, ghost x: LeafRec, page: nat) returns (r: InsertResult)
      requires guard.Valid() && guard.Next() == Free(s) <= MAX_PAGES
      requires Prepared(s, x, guard.View()) && page == x.page && next == Succ(s) && prev == Pred(s)
      requires !Contains(x.rows, s.e.id) && all == Insert(x.rows, StoredForm(s.e, s.n)) && Fits(Sizes(all))
      modifies guard
      ensures guard.Valid() && guard.Next() <= MAX_PAGES
      ensures Tried(s, Leaf(x), r, LeafInsert(x, s.e, s.n), guard.View(), guard.Next())
    {
      ghost var u := guard.View();
      guard.Rewrite(page, LeafPage(all, next, prev));
      FitWritten(s, x, u, guard.View());
      r := FitResult;
    }

    /** The rows on two pages, cut at `mid`, if both halves fit; the new page is taken first. */
    method StoreSplit(all: seq<Entry>, mid: nat, next: nat, prev: nat, ghost s: Site, ghost x: LeafRec, page: nat) returns (r: InsertResult)
      requires guard.Valid() && guard.Next() == Free(s) <= MAX_PAGES
      requires Prepared(s, x, guard.View()) && page == x.page && next == Succ(s) && prev == Pred(s)
      requires !Contains(x.rows, s.e.id) && all == Insert(x.rows, StoredForm(s.e, s.n)) && !Fits(Sizes(all))
      requires |all| >= 2 && mid == SplitPoint(s.e, Sizes(all))
      modifies guard
      ensures guard.Valid() && guard.Next() <= MAX_PAGES
      ensures Tried(s, Leaf(x), r, LeafInsert(x, s.e, s.n), guard.View(), guard.Next())
    {
      SizesCut(all, mid);
      LeafEnd(x, s.e, s.n);
      ghost var u := guard.View();
      var fresh_ := guard.AllocatePage();
      if fresh_.None? {
        return Rejected(AllocationError);
      }
      if !Fits(Sizes(all[..mid])) || !Fits(Sizes(all[mid..])) {
        return Rejected(OverrunError);
      }
      r := StoreHalves(all, mid, next, prev, fresh_.value, s, x, page, u);
    }

    method StoreHalves(all: seq<Entry>, mid: nat, next: nat, prev: nat, fresh_: nat, ghost s: Site, ghost x: LeafRec, page: nat, ghost u: Pages)
        returns (r: InsertResult)
      requires guard.Valid() && fresh_ == Free(s) && guard.Next() == fresh_ + 1 <= MAX_PAGES
      requires guard.View() == u[fresh_ := Blank] && (forall p :: p in u ==> p < fresh_)
      requires Prepared(s, x, u) && page == x.page && next == Succ(s) && prev == Pred(s)
      requires all == Insert(x.rows, StoredForm(s.e, s.n)) && LeafInsert(x, s.e, s.n).Split?
      requires mid < |all| && mid == SplitPoint(s.e, Sizes(all))
      modifies guard
      ensures guard.Valid() && guard.Next() <= MAX_PAGES
      ensures Tried(s, Leaf(x), r, LeafInsert(x, s.e, s.n), guard.View(), guard.Next())
    {
      AtLinks(s.v, s.before, x.page, s.after);
      SplitLeaf(page, all, mid, next, prev, fresh_);
      Overwritten(u, fresh_, page, Blank, LeafPage(all[..mid], fresh_, prev), LeafPage(all[mid..], next, page));
      SplitWritten(s, x, u, guard.View(), all, mid);
      return SplitResult(fresh_, all[mid].id);
    }

    /** A row too long for any page: its overflow pages first, then its inline part. */
    method InsertOversized(e: Entry, rows: seq<Entry>, pos: nat, existing: nat, page: nat, next: nat, prev: nat, ghost s: Site)
        returns (r: InsertResult)
      requires guard.Valid() && guard.Next() <= MAX_PAGES && |e.data| > MAX_SINGLE_ROW
      requires s.e == e && s.v == guard.View() && s.n == guard.Next()
      requires Prepared(s, LeafRec(page, rows), s.v + AsPages(RowChain(e, s.n))) && next == Succ(s) && prev == Pred(s)
      requires !Contains(rows, e.id) && pos == LowerBound(rows, e.id) && existing == Sum(Sizes(rows))
      requires Fits(Sizes(rows))
      modifies guard
      ensures guard.Valid() && guard.Next() <= MAX_PAGES
      ensures Tried(s, Leaf(LeafRec(page, rows)), r, LeafInsert(LeafRec(page, rows), e, s.n), guard.View(), guard.Next())
    {
      LeafEnd(LeafRec(page, rows), e, s.n);
      var inline := WriteOverflowRow(e.data);
      if inline.None? {
        return Rejected(AllocationError);
      }
      r := StoreInline(e, inline.value, rows, pos, existing, page, next, prev, s);
    }

    /** The inline part of an oversized row, once its overflow pages are staged. */
    method StoreInline(e: Entry, inline: seq<Byte>, rows: seq<Entry>, pos: nat, existing: nat, page: nat, next: nat, prev: nat, ghost s: Site)
        returns (r: InsertResult)
      requires guard.Valid() && s.e == e && guard.Next() == Free(s) <= MAX_PAGES && |e.data| > MAX_SINGLE_ROW
      requires Prepared(s, LeafRec(page, rows), guard.View()) && next == Succ(s) && prev == Pred(s)
      requires inline == Inline(e.data, s.n) && !Contains(rows, e.id) && pos == LowerBound(rows, e.id)
      requires existing == Sum(Sizes(rows)) && Fits(Sizes(rows))
      modifies guard
      ensures guard.Valid() && guard.Next() <= MAX_PAGES
      ensures Tried(s, Leaf(LeafRec(page, rows)), r, LeafInsert(LeafRec(page, rows), e, s.n), guard.View(), guard.Next())
    {
      ghost var x := LeafRec(page, rows);
      var all := rows[..pos] + [Entry(e.id, inline)] + rows[pos..];
      InlineSizes(e, inline, rows, pos, s.n);
      if PAGE_HEADER_SIZE + (|rows| + 1) * 2 + existing + |inline| + CHECKSUM_SIZE <= PAGE_SIZE {
        r := StoreFitting(all, next, prev, s, x, page);
      } else {
        var mid := FindOverflowSplitPoint(Sizes(rows), pos, |inline|);
        r := StoreSplit(all, mid, next, prev, s, x, page);
      }
    }

    method InsertIntoLeaf(page: nat, rows: seq<Entry>, next: nat, prev: nat, e: Entry, ghost s: Site) returns (r: InsertResult)
      requires guard.Valid() && Sorted(rows) && Fits(Sizes(rows)) && 0 < guard.Next() <= MAX_PAGES
      requires s.e == e && s.v == guard.View() && s.n == guard.Next()
      requires page in s.v && s.v[page] == LeafPage(rows, next, prev)
      requires Linked(s.v, s.before + [page] + s.after)
      modifies guard
      ensures guard.Valid() && guard.Next() <= MAX_PAGES
      ensures Tried(s, Leaf(LeafRec(page, rows)), r, LeafInsert(LeafRec(page, rows), e, s.n), guard.View(), guard.Next())
    {
      var pos, found := FindInsertionPoint(rows, e.id);
      if found {
        return Rejected(DuplicateKeyError);
      }
      var existing := DataSize(rows);
      ghost var x := LeafRec(page, rows);
      AtLinks(s.v, s.before, page, s.after);
      PreparedToStage(s, x);
      InsertSize(rows, e);
      if PAGE_HEADER_SIZE + (|rows| + 1) * 2 + existing + |e.data| + CHECKSUM_SIZE <= PAGE_SIZE {
        r := StoreFitting(rows[..pos] + [e] + rows[pos..], next, prev, s, x, page);
      } else if |e.data| > MAX_SINGLE_ROW {
        r := InsertOversized(e, rows, pos, existing, page, next, prev, s);
      } else {
        var all := rows[..pos] + [e] + rows[pos..];
        SingleFits(all);
        r := StoreSplit(all, |all| / 2, next, prev, s, x, page);
      }
    }

    /** Take a split child into a branch, splitting the branch when it is full. */
    method InsertIntoBranch(page: nat, i: nat, separator: nat, newChild: nat, cap: nat,
                            ghost keys: seq<nat>, ghost children: seq<nat>)
        returns (r: InsertResult)
      requires guard.Valid() && page in guard.View() && guard.View()[page] == BranchPage(keys, children)
      requires |children| == |keys| + 1 && i <= |keys| && guard.Next() <= MAX_PAGES && cap >= 3
      modifies guard
      ensures guard.Valid() && guard.Next() <= MAX_PAGES
      ensures r == if |keys| < cap then FitResult
                   else if old(guard.Next()) >= MAX_PAGES then Rejected(AllocationError)
                   else SplitResult(old(guard.Next()), SplicedKeys(keys, i, separator)[(|keys| + 1) / 2])
      ensures !r.Rejected? ==>
        && guard.View() == BranchPages(old(guard.View()), page, keys, children, i, separator, newChild, cap, old(guard.Next()))
        && guard.Next() == if |keys| < cap then old(guard.Next()) else old(guard.Next()) + 1
    {
      var current := guard.ReadPage(page);
      var newKeys := SplicedKeys(current.value.keys, i, separator);
      var newChildren := SplicedChildren(current.value.children, i, newChild);
      if |current.value.keys| < cap {
        guard.Rewrite(page, BranchPage(newKeys, newChildren));
        return FitResult;
      }
      var mid := |newKeys| / 2;
      var fresh_ := SplitBranch(page, BranchPage(newKeys[..mid], newChildren[..mid + 1]),
                                BranchPage(newKeys[mid + 1..], newChildren[mid + 1..]));
      return if fresh_.Some? then SplitResult(fresh_.value, newKeys[mid]) else Rejected(AllocationError);
    }

    method SplitBranch(page: nat, left: Page, right: Page) returns (fresh_: Option<nat>)
      requires guard.Valid() && page in guard.View() && guard.Next() <= MAX_PAGES
      modifies guard
      ensures guard.Valid() && guard.Next() <= MAX_PAGES
      ensures fresh_ == if old(guard.Next()) < MAX_PAGES then Some(old(guard.Next())) else None
      ensures fresh_.Some? ==>
        guard.Next() == fresh_.value + 1 && guard.View() == old(guard.View())[page := left][fresh_.value := right]
    {
      guard.Rewrite(page, left);
      fresh_ := guard.AllocatePage();
      if fresh_.Some? { guard.PutPage(fresh_.value, right); }
    }

    /** Pass the child's result up through a branch. */
    method TakeIn(page: nat, keys: seq<nat>, children: seq<nat>, i: nat, childResult: InsertResult, cap: nat,
                  ghost s: Site, ghost t: Tree, ghost o: Outcome)
        returns (r: InsertResult)
      requires guard.Valid() && cap >= 3 && guard.Next() <= MAX_PAGES
      requires t.Branch? && |t.kids| == |t.keys| + 1 && i <= |t.keys|
      requires page == t.page && keys == t.keys && children == Roots(t.kids)
      requires childResult == Rejected(AllocationError) <==> PagesEnd(o, s.e, s.n) > MAX_PAGES
      requires childResult != Rejected(AllocationError) ==> KidWritten(s, t, i, childResult, o, guard.View(), guard.Next())
      modifies guard
      ensures guard.Valid() && guard.Next() <= MAX_PAGES
      ensures Tried(s, t, r, Absorb(t.page, t.keys, t.kids, i, o, cap), guard.View(), guard.Next())
    {
      if childResult.SplitResult? {
        r := TakeInSplit(page, keys, children, i, childResult, cap, s, t, o);
      } else {
        AbsorbUnsplit(s, t, i, childResult, o, guard.View(), guard.Next(), cap);
        r := childResult;
      }
    }

    method TakeInSplit(page: nat, keys: seq<nat>, children: seq<nat>, i: nat, childResult: InsertResult, cap: nat,
                       ghost s: Site, ghost t: Tree, ghost o: Outcome)
        returns (r: InsertResult)
      requires guard.Valid() && cap >= 3 && guard.Next() <= MAX_PAGES && childResult.SplitResult?
      requires t.Branch? && page == t.page && keys == t.keys && children == Roots(t.kids)
      requires KidWritten(s, t, i, childResult, o, guard.View(), guard.Next())
      modifies guard
      ensures guard.Valid() && guard.Next() <= MAX_PAGES
      ensures Tried(s, t, r, Absorb(t.page, t.keys, t.kids, i, o, cap), guard.View(), guard.Next())
    {
      ghost var w, next := guard.View(), guard.Next();
      AbsorbPage(s, t, i, childResult, o, w, next, cap);
      r := InsertIntoBranch(page, i, childResult.separator, childResult.newPage, cap, keys, children);
      AbsorbTried(s, t, i, childResult, o, w, next, cap, r, guard.View(), guard.Next());
    }

    method InsertRecursive(page: nat, e: Entry, depth: nat, cap: nat,
                           ghost s: Site, ghost t: Tree, ghost h: nat, ghost lo: nat, ghost hi: nat, ghost min: nat)
        returns (r: InsertResult)
      requires guard.Valid() && page == Root(t) && 0 < guard.Next() <= MAX_PAGES && cap >= 3
      requires s.e == e && s.v == guard.View() && s.n == guard.Next()
      requires Enters(s, t, h, lo, hi, cap, min) && depth + h < MAX_TREE_DEPTH
      modifies guard
      ensures guard.Valid() && guard.Next() <= MAX_PAGES
      ensures Tried(s, t, r, TreeInsert(t, e, cap, s.n), guard.View(), guard.Next())
      decreases h
    {
      if depth >= MAX_TREE_DEPTH {
        return Rejected(DepthError);
      }
      var current := guard.ReadPage(page);
      if current.value.LeafPage? {
        assert LeafPages(Fringe(t)) == [page];
        r := InsertIntoLeaf(page, current.value.rows, current.value.next, current.value.prev, e, s);
      } else {
        r := InsertUnder(page, current.value.keys, current.value.children, e, depth, cap, s, t, h, lo, hi, min);
      }
    }

    method InsertUnder(page: nat, keys: seq<nat>, children: seq<nat>, e: Entry, depth: nat, cap: nat,
                       ghost s: Site, ghost t: Tree, ghost h: nat, ghost lo: nat, ghost hi: nat, ghost min: nat)
        returns (r: InsertResult)
      requires guard.Valid() && t.Branch? && page == t.page && keys == t.keys && children == Roots(t.kids)
      requires 0 < guard.Next() <= MAX_PAGES && cap >= 3
      requires s.e == e && s.v == guard.View() && s.n == guard.Next()
      requires Enters(s, t, h, lo, hi, cap, min) && depth + h < MAX_TREE_DEPTH
      modifies guard
      ensures guard.Valid() && guard.Next() <= MAX_PAGES
      ensures Tried(s, t, r, TreeInsert(t, e, cap, s.n), guard.View(), guard.Next())
      decreases h, 0
    {
      var i, child := FindChild(keys, children, e.id);
      KidReady(s, t, h, lo, hi, cap, min);
      var childResult := InsertRecursive(child, e, depth + 1, cap, KidSite(s, t, i),
        t.kids[i], h - 1, Bound(keys, lo, hi, i), Bound(keys, lo, hi, i + 1), MinKeys(cap));
      KidConserves(t, i, e, s.n, h, lo, hi, cap, min);
      r := TakeIn(page, keys, children, i, childResult, cap, s, t, TreeInsert(t.kids[i], e, cap, s.n));
    }

    /** A new root over the two halves of the old one, unless page numbers have run out. */
    method GrowNewRoot(separator: nat, newPage: nat) returns (ok: bool)
      requires guard.Valid() && guard.Next() <= MAX_PAGES
      modifies this, guard
      ensures guard.Valid() && guard.Next() <= MAX_PAGES && ok == (old(guard.Next()) < MAX_PAGES)
      ensures ok ==>
        && root == old(guard.Next()) && guard.Next() == root + 1
        && guard.View() == old(guard.View())[root := BranchPage([separator], [old(root), newPage])]
    {
      var a := guard.AllocatePage();
      if a.None? {
        return false;
      }
      guard.PutPage(a.value, BranchPage([separator], [root, newPage]));
      root := a.value;
      return true;
    }

    /** Insert a row; a split of the root grows a new root above it. */
    method InsertRoot(e: Entry, cap: nat, ghost t: Tree, ghost h: nat, ghost hi: nat) returns (r: InsertResult)
      requires guard.Valid() && root == Root(t) && 0 < guard.Next() <= MAX_PAGES && cap >= 3
      requires Shaped(t) && Wf(t, h, 0, hi, cap, 1) && e.id < hi && Owned(t, guard.Next())
      requires Holds(guard.View(), t) && Linked(guard.View(), LeafPages(Fringe(t)))
      requires h < MAX_TREE_DEPTH
      modifies this, guard
      ensures guard.Valid() && guard.Next() <= MAX_PAGES
      ensures RootTried(Site(e, old(guard.Next()), old(guard.View()), [], []), t, r,
                        RootInsert(t, e, cap, old(guard.Next())), guard.View(), guard.Next(), old(root), root)
    {
      ghost var s := Site(e, guard.Next(), guard.View(), [], []);
      ghost var o := TreeInsert(t, e, cap, s.n);
      forall q ensures Uses(t, q) <= 1 { assert Uses(t, q) <= OneIn(q, 1, s.n); }
      NoNeighbours(LeafPages(Fringe(t)));
      r := InsertRecursive(root, e, 0, cap, s, t, h, 0, hi, 1);
      if r.SplitResult? {
        r := GrowAbove(r, cap, s, t, o, h, hi);
      } else {
        RootKept(s, t, r, o, guard.View(), guard.Next());
      }
    }

    method GrowAbove(split: InsertResult, cap: nat, ghost s: Site, ghost t: Tree, ghost o: Outcome, ghost h: nat, ghost hi: nat)
        returns (r: InsertResult)
      requires guard.Valid() && root == Root(t) && guard.Next() <= MAX_PAGES && split.SplitResult?
      requires Shaped(t) && Wf(t, h, 0, hi, cap, 1) && o == TreeInsert(t, s.e, cap, s.n)
      requires s.before == [] && s.after == [] && Written(s, t, split, o, guard.View(), guard.Next())
      modifies this, guard
      ensures guard.Valid() && guard.Next() <= MAX_PAGES
      ensures RootTried(s, t, r, GrowRoot(o), guard.View(), guard.Next(), old(root), root)
    {
      ghost var w := guard.View();
      var ok := GrowNewRoot(split.separator, split.newPage);
      r := if ok then FitResult else Rejected(AllocationError);
      RootSplit(s, t, split, o, w, cap, h, hi);
    }

    /** Rewrite the one leaf that may hold the row; leaves are never merged or unlinked. */
    method DeleteRecursive(page: nat, id: nat, depth: nat,
                           ghost t: Tree, ghost h: nat, ghost lo: nat, ghost hi: nat, ghost cap: nat, ghost min: nat,
                           ghost ps: seq<nat>)
        returns (existed: bool)
      requires guard.Valid() && page == Root(t)
      requires Shaped(t) && Wf(t, h, lo, hi, cap, min) && lo <= id < hi
      requires Holds(guard.View(), t) && (forall q :: Uses(t, q) <= 1) && Linked(guard.View(), ps)
      requires depth + h < MAX_TREE_DEPTH
      modifies guard
      ensures guard.Valid() && guard.Next() == old(guard.Next())
      ensures existed == TreeSearch(t, id).Found?
      ensures Holds(guard.View(), TreeDelete(t, id)) && Linked(guard.View(), ps)
      ensures Frame(old(guard.View()), guard.View(), t)
      ensures !existed ==> guard.View() == old(guard.View())
      decreases h
    {
      var current := guard.ReadPage(page);
      if current.value.LeafPage? {
        existed := DeleteFromLeaf(page, current.value, id, t, ps);
        return;
      }
      var i, child := FindChild(current.value.keys, current.value.children, id);
      ghost var v := guard.View();
      RouteInRange(t.keys, lo, hi, id);
      forall q ensures Uses(t.kids[i], q) <= 1 { KidUses(t, i, q); }
      existed := DeleteRecursive(child, id, depth + 1,
        t.kids[i], h - 1, Bound(t.keys, lo, hi, i), Bound(t.keys, lo, hi, i + 1), cap, MinKeys(cap), ps);
      OtherKidsKept(t, i, v, guard.View(), 0);
      KidDeleted(t, i, id, v, guard.View());
    }

    method DeleteFromLeaf(page: nat, current: Page, id: nat, ghost t: Tree, ghost ps: seq<nat>) returns (existed: bool)
      requires guard.Valid() && t.Leaf? && page == t.leaf.page && Sorted(t.leaf.rows)
      requires Holds(guard.View(), t) && current == guard.View()[page] && Linked(guard.View(), ps)
      modifies guard
      ensures guard.Valid() && guard.Next() == old(guard.Next())
      ensures existed == Contains(t.leaf.rows, id)
      ensures guard.View() == if existed then old(guard.View())[page := current.(rows := Remove(t.leaf.rows, id))] else old(guard.View())
      ensures Holds(guard.View(), TreeDelete(t, id)) && Linked(guard.View(), ps)
      ensures Frame(old(guard.View()), guard.View(), t)
    {
      if |current.rows| == 0 {
        return false;
      }
      var pos, found := FindInsertionPoint(current.rows, id);
      if !found {
        return false;
      }
      ghost var v := guard.View();
      guard.Rewrite(page, LeafPage(current.rows[..pos] + current.rows[pos + 1..], current.next, current.prev));
      RowsRewritten(v, t, page, Remove(current.rows, id), ps);
      return true;
    }

    method DeleteRoot(id: nat, ghost t: Tree, ghost h: nat, ghost hi: nat, ghost cap: nat) returns (existed: bool)
      requires guard.Valid() && root == Root(t)
      requires Shaped(t) && Wf(t, h, 0, hi, cap, 1) && id < hi && Owned(t, guard.Next()) && h < MAX_TREE_DEPTH
      requires Holds(guard.View(), t) && Linked(guard.View(), LeafPages(Fringe(t)))
      modifies guard
      ensures guard.Valid() && guard.Next() == old(guard.Next())
      ensures existed == TreeSearch(t, id).Found? && root == Root(TreeDelete(t, id))
      ensures Holds(guard.View(), TreeDelete(t, id)) && Linked(guard.View(), LeafPages(Fringe(TreeDelete(t, id))))
      ensures Frame(old(guard.View()), guard.View(), t)
    {
      forall q ensures Uses(t, q) <= 1 { assert Uses(t, q) <= OneIn(q, 1, guard.Next()); }
      DeleteKeepsLeaves(t, id, h, 0, hi, cap, 1);
      existed := DeleteRecursive(root, id, 0, t, h, 0, hi, cap, 1, LeafPages(Fringe(t)));
    }
  }
}
