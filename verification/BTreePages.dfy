/** Page numbers of a tree: conservation under insertion, and the bound on its depth. */
module BTreePages {
  import opened Seqs
  import opened Overflow
  import opened LeafSplit
  import opened BTree
  import opened BTreeShape
  import opened BTreeLeaves

  /** How often a tree uses page `q`. */
  function Uses(t: Tree, q: nat): nat
    decreases t, 1
  {
    match t
    case Leaf(x) => if x.page == q then 1 else 0
    case Branch(p, keys, kids) => (if p == q then 1 else 0) + UsesAll(kids, q)
  }

  function UsesAll(kids: seq<Tree>, q: nat): nat
    decreases kids, 0
  {
    if kids == [] then 0 else Uses(kids[0], q) + UsesAll(kids[1..], q)
  }

  lemma {:induction false} UsesConcat(a: seq<Tree>, b: seq<Tree>, q: nat)
    ensures UsesAll(a + b, q) == UsesAll(a, q) + UsesAll(b, q)
  {
    if a == [] {
      EmptyFront(a, b);
    } else {
      UsesConcat(a[1..], b, q);
      TailOfConcat(a, b);
    }
  }

  lemma UsesOne(k: Tree, q: nat)
    ensures UsesAll([k], q) == Uses(k, q)
  {
    assert [k][1..] == [];
  }

  lemma UsesTwo(l: Tree, r: Tree, q: nat)
    ensures UsesAll([l, r], q) == Uses(l, q) + Uses(r, q)
  {
    UsesConcat([l], [r], q);
    UsesOne(l, q);
    UsesOne(r, q);
    assert [l, r] == [l] + [r];
  }

  lemma UsesSplice(kids: seq<Tree>, i: nat, mid: seq<Tree>, q: nat)
    requires i < |kids|
    ensures UsesAll(kids[..i] + mid + kids[i + 1..], q) ==
      UsesAll(kids[..i], q) + UsesAll(mid, q) + UsesAll(kids[i + 1..], q)
  {
    UsesConcat(kids[..i] + mid, kids[i + 1..], q);
    UsesConcat(kids[..i], mid, q);
  }

  /** Putting `k` in place of child `i` changes the count by the difference. */
  lemma UsesReplace(kids: seq<Tree>, i: nat, k: Tree, q: nat)
    requires i < |kids|
    ensures UsesAll(kids[i := k], q) == UsesAll(kids[..i], q) + Uses(k, q) + UsesAll(kids[i + 1..], q)
    ensures UsesAll(kids, q) == UsesAll(kids[..i], q) + Uses(kids[i], q) + UsesAll(kids[i + 1..], q)
  {
    UsesSplice(kids, i, [k], q);
    UsesOne(k, q);
    UsesSplice(kids, i, [kids[i]], q);
    UsesOne(kids[i], q);
    SwapOne(kids, i, k);
    CutAround(kids, i);
  }

  function OutUses(o: Outcome, q: nat): nat {
    match o
    case Fit(t, _) => Uses(t, q)
    case Split(l, _, r, _) => Uses(l, q) + Uses(r, q)
    case _ => 0
  }

  function OutNext(o: Outcome): nat {
    match o
    case Fit(_, n) => n
    case Split(_, _, _, n) => n
    case _ => 0
  }

  function OneIn(q: nat, a: nat, b: nat): nat {
    if a <= q < b then 1 else 0
  }

  /** The outcome uses the old pages as before and each page allocated from `free` on once. */
  predicate Conserves(o: Outcome, before: nat, free: nat, height: nat, q: nat) {
    Done(o) ==>
      && free <= OutNext(o) <= free + height + 1
      && OutUses(o, q) == before + OneIn(q, free, OutNext(o))
  }

  lemma AbsorbUses(p: nat, keys: seq<nat>, kids: seq<Tree>, i: nat, o: Outcome, cap: nat, free: nat, h: nat, q: nat)
    requires i <= |keys| && |kids| == |keys| + 1 && Conserves(o, Uses(kids[i], q), free, h, q)
    ensures Conserves(Absorb(p, keys, kids, i, o, cap), (if p == q then 1 else 0) + UsesAll(kids, q), free, h + 1, q)
  {
    match o
    case Fit(k, n) => UsesReplace(kids, i, k, q);
    case Split(l, s, r, n) =>
      UsesReplace(kids, i, kids[i], q);
      BranchInsertUses(p, keys, kids, i, l, s, r, cap, n, q);
    case _ =>
  }

  lemma BranchInsertUses(
      p: nat, keys: seq<nat>, kids: seq<Tree>, i: nat, l: Tree, s: nat, r: Tree, cap: nat, next: nat, q: nat)
    requires i <= |keys| && |kids| == |keys| + 1
    ensures var o := BranchInsert(p, keys, kids, i, l, s, r, cap, next);
            && OutNext(o) == (if |keys| < cap then next else next + 1)
            && OutUses(o, q) == (if p == q then 1 else 0) + (UsesAll(kids[..i], q) + (Uses(l, q) + Uses(r, q)) + UsesAll(kids[i + 1..], q))
                                + (if |keys| >= cap && next == q then 1 else 0)
  {
    var newKeys, newKids, mid := keys[..i] + [s] + keys[i..], kids[..i] + [l, r] + kids[i + 1..], (|keys| + 1) / 2;
    SplitUses(kids, i, l, r, mid + 1, q);
    if |keys| < cap {
      UsesBranch(p, newKeys, newKids, q);
    } else {
      UsesBranch(p, newKeys[..mid], newKids[..mid + 1], q);
      UsesBranch(next, newKeys[mid + 1..], newKids[mid + 1..], q);
    }
  }

  lemma UsesBranch(p: nat, keys: seq<nat>, kids: seq<Tree>, q: nat)
    ensures Uses(Branch(p, keys, kids), q) == (if p == q then 1 else 0) + UsesAll(kids, q)
  {
  }

  /** The pages of the children with one of them split, all together and cut in two. */
  lemma SplitUses(kids: seq<Tree>, i: nat, l: Tree, r: Tree, mid: nat, q: nat)
    requires i < |kids| && mid <= |kids| + 1
    ensures var newKids := kids[..i] + [l, r] + kids[i + 1..];
            var all := UsesAll(kids[..i], q) + (Uses(l, q) + Uses(r, q)) + UsesAll(kids[i + 1..], q);
            UsesAll(newKids, q) == all && UsesAll(newKids[..mid], q) + UsesAll(newKids[mid..], q) == all
  {
    UsesSplice(kids, i, [l, r], q);
    UsesTwo(l, r, q);
    var newKids := kids[..i] + [l, r] + kids[i + 1..];
    UsesConcat(newKids[..mid], newKids[mid..], q);
    CutAt(newKids, mid);
  }

  /** No page of a tree is lost or used twice by an insertion. */
  lemma {:induction false} InsertConservesPages(
      t: Tree, e: Entry, next: nat, h: nat, lo: nat, hi: nat, cap: nat, min: nat, q: nat)
    requires Shaped(t) && Wf(t, h, lo, hi, cap, min)
    ensures Conserves(TreeInsert(t, e, cap, next), Uses(t, q), next + OverflowCount(e), h, q)
    decreases t
  {
    match t
    case Leaf(x) => LeafInsertUses(x, e, next, q);
    case Branch(p, keys, kids) =>
      var i := ChildIndex(keys, e.id);
      InsertConservesPages(
        kids[i], e, next, h - 1, Bound(keys, lo, hi, i), Bound(keys, lo, hi, i + 1), cap, MinKeys(cap), q);
      AbsorbUses(p, keys, kids, i, TreeInsert(kids[i], e, cap, next), cap, next + OverflowCount(e), h - 1, q);
  }

  lemma LeafInsertUses(x: LeafRec, e: Entry, next: nat, q: nat)
    ensures Conserves(LeafInsert(x, e, next), Uses(Leaf(x), q), next + OverflowCount(e), 0, q)
  {
    var all := Insert(x.rows, StoredForm(e, next));
    if !Contains(x.rows, e.id) && !Fits(Sizes(all)) { SingleFits(all); }
  }

  lemma GrowRootUses(o: Outcome, before: nat, free: nat, h: nat, q: nat)
    requires Conserves(o, before, free, h, q)
    ensures Conserves(GrowRoot(o), before, free, h + 1, q)
  {
    if o.Split? { UsesTwo(o.left, o.right, q); }
  }

  lemma {:induction false} DeleteKeepsPages(t: Tree, id: nat, q: nat)
    requires Shaped(t)
    ensures Uses(TreeDelete(t, id), q) == Uses(t, q)
    decreases t
  {
    match t
    case Leaf(x) =>
    case Branch(p, keys, kids) =>
      var i := ChildIndex(keys, id);
      DeleteKeepsPages(kids[i], id, q);
      UsesReplace(kids, i, TreeDelete(kids[i], id), q);
  }

  // ----- distinctness -----

  /** Every page is used at most once, is not the null page, and has been allocated. */
  ghost predicate Owned(t: Tree, next: nat) {
    forall q :: Uses(t, q) <= OneIn(q, 1, next)
  }

  function LeafPages(f: seq<LeafRec>): (ps: seq<nat>)
    ensures |ps| == |f|
  {
    seq(|f|, i requires 0 <= i < |f| => f[i].page)
  }

  function LeafUses(f: seq<LeafRec>, q: nat): nat {
    if f == [] then 0 else (if f[0].page == q then 1 else 0) + LeafUses(f[1..], q)
  }

  lemma {:induction false} LeafUsesConcat(a: seq<LeafRec>, b: seq<LeafRec>, q: nat)
    ensures LeafUses(a + b, q) == LeafUses(a, q) + LeafUses(b, q)
  {
    if a == [] {
      EmptyFront(a, b);
    } else {
      LeafUsesConcat(a[1..], b, q);
      TailOfConcat(a, b);
    }
  }

  lemma {:induction false} LeavesAreNodes(t: Tree, q: nat)
    ensures LeafUses(Fringe(t), q) <= Uses(t, q)
    decreases t, 1
  {
    match t
    case Leaf(x) => assert [x][1..] == [];
    case Branch(p, keys, kids) => LeavesAreNodesAll(kids, q);
  }

  lemma {:induction false} LeavesAreNodesAll(kids: seq<Tree>, q: nat)
    ensures LeafUses(Fringes(kids), q) <= UsesAll(kids, q)
    decreases kids, 0
  {
    if kids != [] {
      LeavesAreNodes(kids[0], q);
      LeavesAreNodesAll(kids[1..], q);
      LeafUsesConcat(Fringe(kids[0]), Fringes(kids[1..]), q);
    }
  }

  predicate NoDup(s: seq<nat>) {
    forall i, j :: 0 <= i < j < |s| ==> s[i] != s[j]
  }

  lemma {:induction false} LeafUsed(f: seq<LeafRec>, i: nat)
    requires i < |f|
    ensures LeafUses(f, f[i].page) >= 1
  {
    if i > 0 { LeafUsed(f[1..], i - 1); }
  }

  lemma LeafIsNode(t: Tree, i: nat)
    requires i < |Fringe(t)|
    ensures Uses(t, Fringe(t)[i].page) > 0
  {
    LeafUsed(Fringe(t), i);
    LeavesAreNodes(t, Fringe(t)[i].page);
  }

  lemma {:induction false} LeafUsedTwice(f: seq<LeafRec>, i: nat, j: nat)
    requires i < j < |f| && f[i].page == f[j].page
    ensures LeafUses(f, f[i].page) >= 2
  {
    if i > 0 { LeafUsedTwice(f[1..], i - 1, j - 1); } else { LeafUsed(f[1..], j - 1); }
  }

  /** The leaves of a tree that owns its pages are on distinct, allocated pages. */
  lemma LeavesDistinct(t: Tree, next: nat)
    requires Owned(t, next)
    ensures NoDup(LeafPages(Fringe(t)))
    ensures forall i :: 0 <= i < |Fringe(t)| ==> 0 < LeafPages(Fringe(t))[i] < next
  {
    var f := Fringe(t);
    forall i, j | 0 <= i < j < |f| ensures LeafPages(f)[i] != LeafPages(f)[j] {
      if f[i].page == f[j].page {
        LeafUsedTwice(f, i, j);
        LeavesAreNodes(t, f[i].page);
      }
    }
    forall i | 0 <= i < |f| ensures 0 < LeafPages(f)[i] < next {
      LeafUsed(f, i);
      LeavesAreNodes(t, f[i].page);
    }
  }

  /** Distinct numbers below `n` are at most `n` many: the page-count guards cannot fire. */
  lemma {:induction false} Pigeonhole(s: seq<nat>, n: nat)
    requires NoDup(s) && forall i :: 0 <= i < |s| ==> s[i] < n
    ensures |s| <= n
  {
    assert s == [] || s[0] < n;
    if n > 0 {
      if i :| 0 <= i < |s| && s[i] == n - 1 {
        var rest := s[..i] + s[i + 1..];
        assert forall k :: 0 <= k < |rest| ==> rest[k] == (if k < i then s[k] else s[k + 1]);
        assert NoDup(rest);
        forall k | 0 <= k < |rest| ensures rest[k] < n - 1 {
          var at := if k < i then k else k + 1;
          assert s[at] != s[i];
        }
        Pigeonhole(rest, n - 1);
      } else {
        Pigeonhole(s, n - 1);
      }
    }
  }

  // ----- depth -----

  function Power(b: nat, k: nat): nat {
    if k == 0 then 1 else b * Power(b, k - 1)
  }

  /** A subtree of height `h` below the root has at least (MinKeys + 1)^h leaves. */
  lemma {:induction false} FanOut(t: Tree, h: nat, lo: nat, hi: nat, cap: nat, min: nat)
    requires Wf(t, h, lo, hi, cap, min)
    ensures |Fringe(t)| >= if h == 0 then 1 else (min + 1) * Power(MinKeys(cap) + 1, h - 1)
    decreases t, 1
  {
    match t
    case Leaf(x) =>
    case Branch(p, keys, kids) =>
      FanOutKids(t, |kids|, h, lo, hi, cap, min);
      assert kids[..|kids|] == kids;
      var w := Power(MinKeys(cap) + 1, h - 1);
      MulMonotone(min + 1, |kids|, w);
  }

  lemma MulMonotone(a: nat, b: nat, w: nat)
    requires a <= b
    ensures a * w <= b * w
  {
  }

  lemma {:induction false} FanOutKids(t: Tree, n: nat, h: nat, lo: nat, hi: nat, cap: nat, min: nat)
    requires t.Branch? && Wf(t, h, lo, hi, cap, min) && n <= |t.kids|
    ensures |Fringes(t.kids[..n])| >= n * Power(MinKeys(cap) + 1, h - 1)
    decreases t, 0, n
  {
    if n > 0 {
      var k := n - 1;
      FanOutKids(t, k, h, lo, hi, cap, min);
      FanOut(t.kids[k], h - 1, Bound(t.keys, lo, hi, k), Bound(t.keys, lo, hi, n), cap, MinKeys(cap));
      FringesConcat(t.kids[..k], [t.kids[k]]);
      FringeOne(t.kids[k]);
      assert t.kids[..n] == t.kids[..k] + [t.kids[k]];
      OneMore(k, Power(MinKeys(cap) + 1, h - 1));
    }
  }

  lemma OneMore(k: nat, w: nat)
    ensures (k + 1) * w == k * w + w
  {
  }

  /** With 32-bit page numbers a row tree has at most 5 branch levels and an index tree at most 6. */
  lemma DepthBound(t: Tree, h: nat, hi: nat, cap: nat, next: nat)
    requires Wf(t, h, 0, hi, cap, 1) && Owned(t, next) && next <= 0x1_0000_0000
    requires cap == ROW_BRANCH_KEYS || cap == INDEX_BRANCH_KEYS
    ensures h <= if cap == ROW_BRANCH_KEYS then 5 else 6
  {
    LeavesDistinct(t, next);
    Pigeonhole(LeafPages(Fringe(t)), next);
    FanOut(t, h, 0, hi, cap, 1);
    PowerValues();
    if h > 0 {
      var most := if cap == ROW_BRANCH_KEYS then 5 else 6;
      if h > most { PowerMonotone(MinKeys(cap) + 1, most, h - 1); }
    }
  }

  lemma PowerValues()
    ensures Power(170, 5) == 141985700000 && Power(49, 6) == 13841287201
  {
    assert Power(170, 1) == 170 * Power(170, 0);
    assert Power(170, 2) == 170 * Power(170, 1);
    assert Power(170, 3) == 170 * Power(170, 2);
    assert Power(170, 4) == 170 * Power(170, 3);
    assert Power(49, 1) == 49 * Power(49, 0);
    assert Power(49, 2) == 49 * Power(49, 1);
    assert Power(49, 3) == 49 * Power(49, 2);
    assert Power(49, 4) == 49 * Power(49, 3);
    assert Power(49, 5) == 49 * Power(49, 4);
  }

  lemma {:induction false} PowerMonotone(b: nat, j: nat, k: nat)
    requires j <= k && b > 0
    ensures Power(b, j) <= Power(b, k)
    decreases k - j
  {
    if j < k {
      PowerMonotone(b, j, k - 1);
      MulMonotone(1, b, Power(b, k - 1));
    }
  }
}
