/** Every insert and delete keeps the shape of a well-formed tree. */
module BTreeShape {
  import opened Overflow
  import opened LeafSplit
  import opened BTree

  lemma SizesCut(rows: seq<Entry>, m: nat)
    requires m <= |rows|
    ensures Sizes(rows[..m]) == Sizes(rows)[..m]
    ensures Sizes(rows[m..]) == Sizes(rows)[m..]
  {
  }

  predicate InRange(rows: seq<Entry>, lo: nat, hi: nat) {
    forall i :: 0 <= i < |rows| ==> lo <= rows[i].id < hi
  }

  lemma InsertSorted(rows: seq<Entry>, e: Entry, lo: nat, hi: nat)
    requires Sorted(rows) && InRange(rows, lo, hi) && lo <= e.id < hi && !Contains(rows, e.id)
    ensures Sorted(Insert(rows, e)) && InRange(Insert(rows, e), lo, hi)
  {
    var pos := LowerBound(rows, e.id);
    if pos < |rows| { assert rows[pos].id > e.id; }
  }

  /** One tree over the whole range, or two over its parts below and from the separator. */
  ghost predicate OutcomeWf(o: Outcome, h: nat, lo: nat, hi: nat, cap: nat, min: nat) {
    && (o.Fit? ==> Wf(o.t, h, lo, hi, cap, min))
    && (o.Split? ==>
         && lo < o.separator < hi
         && Wf(o.left, h, lo, o.separator, cap, MinKeys(cap))
         && Wf(o.right, h, o.separator, hi, cap, MinKeys(cap)))
  }

  lemma LeafCutWf(page: nat, all: seq<Entry>, mid: nat, free: nat, lo: nat, hi: nat, cap: nat, min: nat)
    requires mid < |all| && Sorted(all) && InRange(all, lo, hi)
    ensures OutcomeWf(LeafCut(page, all, mid, free), 0, lo, hi, cap, min)
  {
    if ValidSplit(Sizes(all), mid) {
      SizesCut(all, mid);
      assert all[0].id < all[mid].id;
    }
  }

  lemma LeafInsertWf(x: LeafRec, e: Entry, next: nat, lo: nat, hi: nat, cap: nat, min: nat)
    requires Wf(Leaf(x), 0, lo, hi, cap, min) && lo <= e.id < hi
    ensures OutcomeWf(LeafInsert(x, e, next), 0, lo, hi, cap, min)
  {
    if !Contains(x.rows, e.id) {
      var all := Insert(x.rows, StoredForm(e, next));
      InsertSorted(x.rows, StoredForm(e, next), lo, hi);
      if !Fits(Sizes(all)) {
        SingleFits(all);
        LeafCutWf(x.page, all, SplitPoint(e, Sizes(all)), next + OverflowCount(e), lo, hi, cap, min);
      }
    }
  }

  /** The children of a branch, each within the range its separators give it. */
  ghost predicate KidsWf(keys: seq<nat>, kids: seq<Tree>, h: nat, lo: nat, hi: nat, cap: nat) {
    && |kids| == |keys| + 1
    && (forall i :: 0 <= i <= |keys| ==> Bound(keys, lo, hi, i) < Bound(keys, lo, hi, i + 1))
    && (forall i :: 0 <= i < |kids| ==>
         Wf(kids[i], h, Bound(keys, lo, hi, i), Bound(keys, lo, hi, i + 1), cap, MinKeys(cap)))
  }

  lemma BranchWf(p: nat, keys: seq<nat>, kids: seq<Tree>, h: nat, lo: nat, hi: nat, cap: nat, min: nat)
    requires h > 0
    ensures Wf(Branch(p, keys, kids), h, lo, hi, cap, min) <==>
      KidsWf(keys, kids, h - 1, lo, hi, cap) && min <= |keys| <= cap
  {
  }

  /** Cutting a row of children in two at key `mid`. */
  lemma KidsCut(keys: seq<nat>, kids: seq<Tree>, mid: nat, h: nat, lo: nat, hi: nat, cap: nat)
    requires KidsWf(keys, kids, h, lo, hi, cap) && mid < |keys|
    ensures lo < keys[mid] < hi
    ensures KidsWf(keys[..mid], kids[..mid + 1], h, lo, keys[mid], cap)
    ensures KidsWf(keys[mid + 1..], kids[mid + 1..], h, keys[mid], hi, cap)
  {
    BoundsRise(keys, lo, hi, 0, mid + 1);
    BoundsRise(keys, lo, hi, mid + 1, |keys| + 1);
    var left, right := keys[..mid], keys[mid + 1..];
    assert forall i :: 0 <= i <= mid + 1 ==> Bound(left, lo, keys[mid], i) == Bound(keys, lo, hi, i);
    assert forall i :: 0 <= i <= |right| + 1 ==> Bound(right, keys[mid], hi, i) == Bound(keys, lo, hi, mid + 1 + i);
  }

  /** Replacing child `i` by two children around a new separator. */
  lemma KidsSplice(
      keys: seq<nat>, kids: seq<Tree>, i: nat, l: Tree, s: nat, r: Tree, h: nat, lo: nat, hi: nat, cap: nat)
    requires KidsWf(keys, kids, h, lo, hi, cap) && i <= |keys|
    requires Bound(keys, lo, hi, i) < s < Bound(keys, lo, hi, i + 1)
    requires Wf(l, h, Bound(keys, lo, hi, i), s, cap, MinKeys(cap))
    requires Wf(r, h, s, Bound(keys, lo, hi, i + 1), cap, MinKeys(cap))
    ensures KidsWf(keys[..i] + [s] + keys[i..], kids[..i] + [l, r] + kids[i + 1..], h, lo, hi, cap)
  {
    var keys' := keys[..i] + [s] + keys[i..];
    var kids' := kids[..i] + [l, r] + kids[i + 1..];
    assert forall j :: 0 <= j <= i ==> Bound(keys', lo, hi, j) == Bound(keys, lo, hi, j);
    assert Bound(keys', lo, hi, i + 1) == s;
    assert forall j :: i + 1 < j <= |keys'| + 1 ==> Bound(keys', lo, hi, j) == Bound(keys, lo, hi, j - 1);
    forall j | 0 <= j < |kids'|
      ensures Wf(kids'[j], h, Bound(keys', lo, hi, j), Bound(keys', lo, hi, j + 1), cap, MinKeys(cap))
    {
      if j < i {
        assert kids'[j] == kids[j];
      } else if j > i + 1 {
        assert kids'[j] == kids[j - 1];
      }
    }
  }

  lemma BranchInsertWf(
      p: nat, keys: seq<nat>, kids: seq<Tree>, i: nat, l: Tree, s: nat, r: Tree,
      next: nat, h: nat, lo: nat, hi: nat, cap: nat, min: nat)
    requires h > 0 && cap >= 3 && min <= |keys| <= cap && KidsWf(keys, kids, h - 1, lo, hi, cap)
    requires i <= |keys| && Bound(keys, lo, hi, i) < s < Bound(keys, lo, hi, i + 1)
    requires Wf(l, h - 1, Bound(keys, lo, hi, i), s, cap, MinKeys(cap))
    requires Wf(r, h - 1, s, Bound(keys, lo, hi, i + 1), cap, MinKeys(cap))
    ensures OutcomeWf(BranchInsert(p, keys, kids, i, l, s, r, cap, next), h, lo, hi, cap, min)
  {
    KidsSplice(keys, kids, i, l, s, r, h - 1, lo, hi, cap);
    var keys' := keys[..i] + [s] + keys[i..];
    var kids' := kids[..i] + [l, r] + kids[i + 1..];
    if |keys| < cap {
      BranchWf(p, keys', kids', h, lo, hi, cap, min);
    } else {
      var mid := |keys'| / 2;
      KidsCut(keys', kids', mid, h - 1, lo, hi, cap);
      BranchWf(p, keys'[..mid], kids'[..mid + 1], h, lo, keys'[mid], cap, MinKeys(cap));
      BranchWf(next, keys'[mid + 1..], kids'[mid + 1..], h, keys'[mid], hi, cap, MinKeys(cap));
    }
  }

  /** A key is routed to the child whose range holds it. */
  lemma RouteInRange(keys: seq<nat>, lo: nat, hi: nat, id: nat)
    requires lo <= id < hi
    ensures var i := ChildIndex(keys, id);
            Bound(keys, lo, hi, i) <= id < Bound(keys, lo, hi, i + 1)
  {
  }

  lemma AbsorbWf(
      p: nat, keys: seq<nat>, kids: seq<Tree>, i: nat, o: Outcome,
      h: nat, lo: nat, hi: nat, cap: nat, min: nat)
    requires h > 0 && cap >= 3 && min <= |keys| <= cap && KidsWf(keys, kids, h - 1, lo, hi, cap) && i <= |keys|
    requires OutcomeWf(o, h - 1, Bound(keys, lo, hi, i), Bound(keys, lo, hi, i + 1), cap, MinKeys(cap))
    ensures OutcomeWf(Absorb(p, keys, kids, i, o, cap), h, lo, hi, cap, min)
  {
    match o
    case Fit(k, n) => BranchWf(p, keys, kids[i := k], h, lo, hi, cap, min);
    case Split(l, s, r, n) => BranchInsertWf(p, keys, kids, i, l, s, r, n, h, lo, hi, cap, min);
    case _ =>
  }

  lemma {:induction false} TreeInsertWf(t: Tree, e: Entry, next: nat, h: nat, lo: nat, hi: nat, cap: nat, min: nat)
    requires Shaped(t) && Wf(t, h, lo, hi, cap, min) && lo <= e.id < hi && cap >= 3
    ensures OutcomeWf(TreeInsert(t, e, cap, next), h, lo, hi, cap, min)
    decreases t
  {
    match t
    case Leaf(x) => LeafInsertWf(x, e, next, lo, hi, cap, min);
    case Branch(p, keys, kids) =>
      var i := ChildIndex(keys, e.id);
      RouteInRange(keys, lo, hi, e.id);
      BranchWf(p, keys, kids, h, lo, hi, cap, min);
      TreeInsertWf(kids[i], e, next, h - 1, Bound(keys, lo, hi, i), Bound(keys, lo, hi, i + 1), cap, MinKeys(cap));
      AbsorbWf(p, keys, kids, i, TreeInsert(kids[i], e, cap, next), h, lo, hi, cap, min);
  }

  lemma GrowRootWf(o: Outcome, h: nat, hi: nat, cap: nat)
    requires OutcomeWf(o, h, 0, hi, cap, 1) && cap >= 3
    ensures OutcomeWf(GrowRoot(o), if o.Split? then h + 1 else h, 0, hi, cap, 1)
  {
    match o
    case Split(l, s, r, n) =>
      assert KidsWf([s], [l, r], h, 0, hi, cap);
      BranchWf(n, [s], [l, r], h + 1, 0, hi, cap, 1);
    case _ =>
  }

  /** A root split adds one level; anything else keeps the height. */
  lemma RootInsertWf(t: Tree, e: Entry, next: nat, h: nat, hi: nat, cap: nat)
    requires Shaped(t) && Wf(t, h, 0, hi, cap, 1) && e.id < hi && cap >= 3
    ensures OutcomeWf(RootInsert(t, e, cap, next),
                      if TreeInsert(t, e, cap, next).Split? then h + 1 else h, 0, hi, cap, 1)
  {
    TreeInsertWf(t, e, next, h, 0, hi, cap, 1);
    GrowRootWf(TreeInsert(t, e, cap, next), h, hi, cap);
  }

  lemma RemoveSizes(rows: seq<Entry>, id: nat)
    requires Fits(Sizes(rows))
    ensures Fits(Sizes(Remove(rows, id)))
  {
    if Contains(rows, id) {
      var s, pos := Sizes(rows), LowerBound(rows, id);
      InsertedSum(s, pos);
      assert Sizes(Remove(rows, id)) == s[..pos] + s[pos + 1..];
    }
  }

  lemma {:induction false} TreeDeleteWf(t: Tree, id: nat, h: nat, lo: nat, hi: nat, cap: nat, min: nat)
    requires Shaped(t) && Wf(t, h, lo, hi, cap, min) && lo <= id < hi
    ensures Wf(TreeDelete(t, id), h, lo, hi, cap, min)
    decreases t
  {
    match t
    case Leaf(x) => RemoveSizes(x.rows, id);
    case Branch(p, keys, kids) =>
      var i := ChildIndex(keys, id);
      RouteInRange(keys, lo, hi, id);
      TreeDeleteWf(kids[i], id, h - 1, Bound(keys, lo, hi, i), Bound(keys, lo, hi, i + 1), cap, MinKeys(cap));
  }
}
