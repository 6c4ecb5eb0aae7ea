/** The leaves of a tree in order, and what inserts and deletes do to the rows on them. */
module BTreeLeaves {
  import opened Seqs
  import opened Bytes
  import opened Overflow
  import opened LeafSplit
  import opened BTree
  import opened BTreeShape

  function Fringe(t: Tree): (f: seq<LeafRec>)
    decreases t, 1
  {
    match t
    case Leaf(x) => [x]
    case Branch(p, keys, kids) => Fringes(kids)
  }

  function Fringes(kids: seq<Tree>): seq<LeafRec>
    decreases kids, 0
  {
    if kids == [] then [] else Fringe(kids[0]) + Fringes(kids[1..])
  }

  function Rows(f: seq<LeafRec>): seq<Entry> {
    if f == [] then [] else f[0].rows + Rows(f[1..])
  }

  /** The rows of a tree in leaf order. */
  function TreeRows(t: Tree): seq<Entry> {
    Rows(Fringe(t))
  }

  lemma {:induction false} FringesConcat(a: seq<Tree>, b: seq<Tree>)
    ensures Fringes(a + b) == Fringes(a) + Fringes(b)
  {
    if a == [] {
      EmptyFront(a, b);
    } else {
      FringesConcat(a[1..], b);
      TailOfConcat(a, b);
    }
  }

  lemma {:induction false} RowsConcat(a: seq<LeafRec>, b: seq<LeafRec>)
    ensures Rows(a + b) == Rows(a) + Rows(b)
  {
    if a == [] {
      EmptyFront(a, b);
    } else {
      RowsConcat(a[1..], b);
      TailOfConcat(a, b);
    }
  }

  lemma FringeOne(k: Tree)
    ensures Fringes([k]) == Fringe(k)
  {
    assert [k][1..] == [];
  }

  /** The leaves around child `i`. */
  lemma FringesAround(kids: seq<Tree>, i: nat)
    requires i < |kids|
    ensures Fringes(kids) == Fringes(kids[..i]) + Fringe(kids[i]) + Fringes(kids[i + 1..])
  {
    FringesSplice(kids, i, [kids[i]]);
    FringeOne(kids[i]);
    CutAround(kids, i);
  }

  lemma FringesSplice(kids: seq<Tree>, i: nat, mid: seq<Tree>)
    requires i < |kids|
    ensures Fringes(kids[..i] + mid + kids[i + 1..]) == Fringes(kids[..i]) + Fringes(mid) + Fringes(kids[i + 1..])
  {
    FringesConcat(kids[..i] + mid, kids[i + 1..]);
    FringesConcat(kids[..i], mid);
  }

  lemma FringeTwo(l: Tree, r: Tree)
    ensures Fringes([l, r]) == Fringe(l) + Fringe(r)
  {
    FringesConcat([l], [r]);
    FringeOne(l);
    FringeOne(r);
    assert [l, r] == [l] + [r];
  }

  /** The leaves an outcome leaves behind, in order. */
  function OutFringe(o: Outcome): seq<LeafRec> {
    match o
    case Fit(t, _) => Fringe(t)
    case Split(l, _, r, _) => Fringe(l) + Fringe(r)
    case _ => []
  }

  predicate Done(o: Outcome) {
    o.Fit? || o.Split?
  }

  lemma AbsorbFringe(p: nat, keys: seq<nat>, kids: seq<Tree>, i: nat, o: Outcome, cap: nat)
    requires i <= |keys| && |kids| == |keys| + 1 && Done(o)
    ensures Done(Absorb(p, keys, kids, i, o, cap))
    ensures OutFringe(Absorb(p, keys, kids, i, o, cap)) ==
      Fringes(kids[..i]) + OutFringe(o) + Fringes(kids[i + 1..])
  {
    match o
    case Fit(k, n) =>
      FringesSplice(kids, i, [k]);
      FringeOne(k);
      SwapOne(kids, i, k);
    case Split(l, s, r, n) =>
      FringesSplice(kids, i, [l, r]);
      FringeTwo(l, r);
      var newKeys, newKids := keys[..i] + [s] + keys[i..], kids[..i] + [l, r] + kids[i + 1..];
      var mid := |newKeys| / 2;
      FringesConcat(newKids[..mid + 1], newKids[mid + 1..]);
      CutAt(newKids, mid + 1);
  }

  // ----- order of the rows -----

  lemma SortedConcat(a: seq<Entry>, b: seq<Entry>, lo: nat, mid: nat, hi: nat)
    requires Sorted(a) && Sorted(b) && InRange(a, lo, mid) && InRange(b, mid, hi) && lo <= mid <= hi
    ensures Sorted(a + b) && InRange(a + b, lo, hi)
  {
  }

  lemma {:induction false} FringeSorted(t: Tree, h: nat, lo: nat, hi: nat, cap: nat, min: nat)
    requires Wf(t, h, lo, hi, cap, min)
    ensures lo <= hi && Sorted(TreeRows(t)) && InRange(TreeRows(t), lo, hi)
    decreases t, 1
  {
    match t
    case Leaf(x) => assert Rows([x]) == x.rows + Rows([]);
    case Branch(p, keys, kids) =>
      KidsSorted(t, keys, kids, |kids|, h - 1, lo, hi, cap);
      assert kids[..|kids|] == kids;
  }

  lemma {:induction false} KidsSorted(
      t: Tree, keys: seq<nat>, kids: seq<Tree>, n: nat, h: nat, lo: nat, hi: nat, cap: nat)
    requires t.Branch? && t.kids == kids && KidsWf(keys, kids, h, lo, hi, cap) && n <= |kids|
    ensures lo <= Bound(keys, lo, hi, n)
    ensures Sorted(Rows(Fringes(kids[..n]))) && InRange(Rows(Fringes(kids[..n])), lo, Bound(keys, lo, hi, n))
    decreases t, 0, n
  {
    if n > 0 {
      var k := n - 1;
      KidsSorted(t, keys, kids, k, h, lo, hi, cap);
      FringeSorted(kids[k], h, Bound(keys, lo, hi, k), Bound(keys, lo, hi, n), cap, MinKeys(cap));
      FringesConcat(kids[..k], [kids[k]]);
      FringeOne(kids[k]);
      assert kids[..n] == kids[..k] + [kids[k]];
      RowsConcat(Fringes(kids[..k]), Fringe(kids[k]));
      SortedConcat(Rows(Fringes(kids[..k])), TreeRows(kids[k]), lo, Bound(keys, lo, hi, k), Bound(keys, lo, hi, n));
    }
  }

  /** Rows to the left of child `i` are below its range, rows to the right are above. */
  lemma KidsAround(t: Tree, i: nat, h: nat, lo: nat, hi: nat, cap: nat, min: nat)
    requires t.Branch? && Wf(t, h, lo, hi, cap, min) && i < |t.kids|
    ensures InRange(Rows(Fringes(t.kids[..i])), lo, Bound(t.keys, lo, hi, i))
    ensures InRange(Rows(Fringes(t.kids[i + 1..])), Bound(t.keys, lo, hi, i + 1), hi)
  {
    KidsSorted(t, t.keys, t.kids, i, h - 1, lo, hi, cap);
    KidsAbove(t, i + 1, h, lo, hi, cap, min);
  }

  lemma {:induction false} KidsAbove(t: Tree, i: nat, h: nat, lo: nat, hi: nat, cap: nat, min: nat)
    requires t.Branch? && Wf(t, h, lo, hi, cap, min) && i <= |t.kids|
    ensures InRange(Rows(Fringes(t.kids[i..])), Bound(t.keys, lo, hi, i), hi)
    decreases |t.kids| - i
  {
    if i < |t.kids| {
      KidsAbove(t, i + 1, h, lo, hi, cap, min);
      var k := t.kids[i];
      FringeSorted(k, h - 1, Bound(t.keys, lo, hi, i), Bound(t.keys, lo, hi, i + 1), cap, MinKeys(cap));
      assert t.kids[i..][1..] == t.kids[i + 1..];
      RowsConcat(Fringe(k), Fringes(t.kids[i + 1..]));
      assert Bound(t.keys, lo, hi, i) < Bound(t.keys, lo, hi, i + 1);
      if i + 1 < |t.kids| { BoundsRise(t.keys, lo, hi, i + 1, |t.keys| + 1); }
    }
  }

  // ----- where an operation lands -----

  predicate Surrounds(before: seq<Entry>, after: seq<Entry>, id: nat) {
    && (forall e :: e in before ==> e.id < id)
    && (forall e :: e in after ==> e.id > id)
  }

  /** `x` is the leaf an operation on `id` reaches: everything before it is below, after it above. */
  ghost predicate Lands(t: Tree, id: nat, before: seq<LeafRec>, x: LeafRec, after: seq<LeafRec>) {
    && Fringe(t) == before + [x] + after
    && Surrounds(Rows(before), Rows(after), id)
  }

  /** The outcome at a tree is the outcome at one leaf with the other leaves around it. */
  ghost predicate Local(o: Outcome, leaf: Outcome, before: seq<LeafRec>, after: seq<LeafRec>) {
    if Done(leaf) then Done(o) && OutFringe(o) == before + OutFringe(leaf) + after else o == leaf
  }

  lemma Regroup<T>(l: seq<T>, b: seq<T>, m: seq<T>, a: seq<T>, r: seq<T>)
    ensures l + (b + m + a) + r == (l + b) + m + (a + r)
  {
  }

  /** Landing in child `i` is landing in the branch. */
  lemma LandsUp(
      t: Tree, i: nat, id: nat, b: seq<LeafRec>, x: LeafRec, a: seq<LeafRec>, lo: nat, from: nat, to: nat, hi: nat)
    requires t.Branch? && i < |t.kids| && Lands(t.kids[i], id, b, x, a) && from <= id < to
    requires InRange(Rows(Fringes(t.kids[..i])), lo, from) && InRange(Rows(Fringes(t.kids[i + 1..])), to, hi)
    ensures Lands(t, id, Fringes(t.kids[..i]) + b, x, a + Fringes(t.kids[i + 1..]))
  {
    var l, r := Fringes(t.kids[..i]), Fringes(t.kids[i + 1..]);
    FringesAround(t.kids, i);
    Regroup(l, b, [x], a, r);
    SurroundsWider(l, b, a, r, id, lo, from, to, hi);
  }

  lemma SurroundsWider(
      l: seq<LeafRec>, b: seq<LeafRec>, a: seq<LeafRec>, r: seq<LeafRec>, id: nat,
      lo: nat, from: nat, to: nat, hi: nat)
    requires InRange(Rows(l), lo, from) && InRange(Rows(r), to, hi) && from <= id < to
    requires Surrounds(Rows(b), Rows(a), id)
    ensures Surrounds(Rows(l + b), Rows(a + r), id)
  {
    RowsConcat(l, b);
    RowsConcat(a, r);
  }

  /** The leaf a key is routed to. */
  function LeafFor(t: Tree, id: nat): LeafRec
    requires Shaped(t)
  {
    match t
    case Leaf(x) => x
    case Branch(p, keys, kids) => LeafFor(kids[ChildIndex(keys, id)], id)
  }

  /** The leaf reached, and the three operations as operations on that leaf. */
  lemma {:induction false} Route(t: Tree, e: Entry, next: nat, h: nat, lo: nat, hi: nat, cap: nat, min: nat)
      returns (before: seq<LeafRec>, x: LeafRec, after: seq<LeafRec>)
    requires Shaped(t) && Wf(t, h, lo, hi, cap, min) && lo <= e.id < hi
    ensures Lands(t, e.id, before, x, after) && x == LeafFor(t, e.id)
    ensures TreeSearch(t, e.id) == RowsSearch(x.rows, e.id)
    ensures Fringe(TreeDelete(t, e.id)) == before + [LeafRec(x.page, Remove(x.rows, e.id))] + after
    ensures Local(TreeInsert(t, e, cap, next), LeafInsert(x, e, next), before, after)
    decreases t
  {
    match t
    case Leaf(leaf) =>
      before, x, after := [], leaf, [];
      assert forall f: seq<LeafRec> :: [] + f + [] == f;
    case Branch(p, keys, kids) =>
      var i := ChildIndex(keys, e.id);
      RouteInRange(keys, lo, hi, e.id);
      var b, a;
      b, x, a := Route(kids[i], e, next, h - 1, Bound(keys, lo, hi, i), Bound(keys, lo, hi, i + 1), cap, MinKeys(cap));
      before, after := Fringes(kids[..i]) + b, a + Fringes(kids[i + 1..]);
      KidsAround(t, i, h, lo, hi, cap, min);
      LandsUp(t, i, e.id, b, x, a, lo, Bound(keys, lo, hi, i), Bound(keys, lo, hi, i + 1), hi);
      RouteDelete(kids, i, TreeDelete(kids[i], e.id), LeafRec(x.page, Remove(x.rows, e.id)), b, a);
      RouteInsert(p, keys, kids, i, TreeInsert(kids[i], e, cap, next), LeafInsert(x, e, next), b, a, cap);
  }

  lemma RouteDelete(kids: seq<Tree>, i: nat, k: Tree, x: LeafRec, b: seq<LeafRec>, a: seq<LeafRec>)
    requires i < |kids| && Fringe(k) == b + [x] + a
    ensures Fringes(kids[i := k]) == (Fringes(kids[..i]) + b) + [x] + (a + Fringes(kids[i + 1..]))
  {
    FringesSplice(kids, i, [k]);
    FringeOne(k);
    SwapOne(kids, i, k);
    Regroup(Fringes(kids[..i]), b, [x], a, Fringes(kids[i + 1..]));
  }

  lemma RouteInsert(
      p: nat, keys: seq<nat>, kids: seq<Tree>, i: nat, o: Outcome, leaf: Outcome,
      b: seq<LeafRec>, a: seq<LeafRec>, cap: nat)
    requires i <= |keys| && |kids| == |keys| + 1 && Local(o, leaf, b, a)
    ensures Local(Absorb(p, keys, kids, i, o, cap), leaf, Fringes(kids[..i]) + b, a + Fringes(kids[i + 1..]))
  {
    if Done(leaf) {
      AbsorbFringe(p, keys, kids, i, o, cap);
      Regroup(Fringes(kids[..i]), b, OutFringe(leaf), a, Fringes(kids[i + 1..]));
    }
  }

  // ----- local and global rows -----

  /** Position and membership in a row list are decided by the middle part. */
  lemma PositionLocal(before: seq<Entry>, x: seq<Entry>, after: seq<Entry>, id: nat)
    requires Surrounds(before, after, id)
    ensures LowerBound(before + x + after, id) == |before| + LowerBound(x, id)
    ensures Contains(before + x + after, id) == Contains(x, id)
    ensures RowsSearch(before + x + after, id) == RowsSearch(x, id)
  {
    var all, at := before + x + after, |before| + LowerBound(x, id);
    assert forall i :: 0 <= i < |before| ==> all[i] in before;
    assert forall i :: |before| + |x| <= i < |all| ==> all[i] in after;
    BoundUnique(all, id, at);
  }

  lemma BoundUnique(rows: seq<Entry>, id: nat, pos: nat)
    requires pos <= |rows|
    requires forall i :: 0 <= i < pos ==> rows[i].id < id
    requires pos < |rows| ==> rows[pos].id >= id
    ensures LowerBound(rows, id) == pos
  {
    var other := LowerBound(rows, id);
    var least := if other < pos then other else pos;
    assert least < |rows| ==> rows[least].id == rows[least].id;
  }

  /** Cutting `a + x + b` inside `x`. */
  lemma CutInside<T>(a: seq<T>, x: seq<T>, b: seq<T>, pos: nat)
    requires pos <= |x|
    ensures (a + x + b)[..|a| + pos] == a + x[..pos]
    ensures (a + x + b)[|a| + pos..] == x[pos..] + b
  {
  }

  lemma InsertLocal(before: seq<Entry>, x: seq<Entry>, after: seq<Entry>, e: Entry)
    requires Surrounds(before, after, e.id)
    ensures Insert(before + x + after, e) == before + Insert(x, e) + after
  {
    PositionLocal(before, x, after, e.id);
    var pos := LowerBound(x, e.id);
    CutInside(before, x, after, pos);
    Regroup(before, x[..pos], [e], x[pos..], after);
  }

  lemma RemoveLocal(before: seq<Entry>, x: seq<Entry>, after: seq<Entry>, id: nat)
    requires Surrounds(before, after, id)
    ensures Remove(before + x + after, id) == before + Remove(x, id) + after
  {
    PositionLocal(before, x, after, id);
    if Contains(x, id) {
      var pos := LowerBound(x, id);
      CutInside(before, x, after, pos);
      CutInside(before, x, after, pos + 1);
      Rejoin(before, x[..pos], x[pos + 1..], after);
    }
  }

  lemma LeafInsertRows(x: LeafRec, e: Entry, next: nat)
    ensures LeafInsert(x, e, next).Duplicate? <==> Contains(x.rows, e.id)
    ensures Done(LeafInsert(x, e, next)) ==> Rows(OutFringe(LeafInsert(x, e, next))) == Insert(x.rows, StoredForm(e, next))
  {
    var o := LeafInsert(x, e, next);
    if o.Fit? {
      assert Rows([o.t.leaf]) == o.t.leaf.rows + Rows([]);
    } else if o.Split? {
      RowsConcat([o.left.leaf], [o.right.leaf]);
      assert Rows([o.left.leaf]) == o.left.leaf.rows + Rows([]);
      assert Rows([o.right.leaf]) == o.right.leaf.rows + Rows([]);
    }
  }

  /** Search in the tree is search in its rows. */
  lemma SearchRefines(t: Tree, id: nat, h: nat, lo: nat, hi: nat, cap: nat, min: nat)
    requires Shaped(t) && Wf(t, h, lo, hi, cap, min) && lo <= id < hi
    ensures TreeSearch(t, id) == RowsSearch(TreeRows(t), id)
  {
    var b, x, a := Route(t, Entry(id, []), 0, h, lo, hi, cap, min);
    RowsAround(b, x, a);
    PositionLocal(Rows(b), x.rows, Rows(a), id);
  }

  lemma RowsAround(b: seq<LeafRec>, x: LeafRec, a: seq<LeafRec>)
    ensures Rows(b + [x] + a) == Rows(b) + x.rows + Rows(a)
  {
    RowsConcat(b + [x], a);
    RowsConcat(b, [x]);
    assert Rows([x]) == x.rows + Rows([]);
  }

  /** Deletion removes exactly the row with the id. */
  lemma DeleteRefines(t: Tree, id: nat, h: nat, lo: nat, hi: nat, cap: nat, min: nat)
    requires Shaped(t) && Wf(t, h, lo, hi, cap, min) && lo <= id < hi
    ensures TreeRows(TreeDelete(t, id)) == Remove(TreeRows(t), id)
  {
    var b, x, a := Route(t, Entry(id, []), 0, h, lo, hi, cap, min);
    RowsAround(b, x, a);
    RowsAround(b, LeafRec(x.page, Remove(x.rows, id)), a);
    RemoveLocal(Rows(b), x.rows, Rows(a), id);
  }

  /** Insertion refuses exactly the ids present and otherwise adds exactly the stored row. */
  lemma InsertRefines(t: Tree, e: Entry, next: nat, h: nat, lo: nat, hi: nat, cap: nat, min: nat)
    requires Shaped(t) && Wf(t, h, lo, hi, cap, min) && lo <= e.id < hi
    ensures var o := TreeInsert(t, e, cap, next);
            && (o.Duplicate? <==> Contains(TreeRows(t), e.id))
            && (Done(o) ==> Rows(OutFringe(o)) == Insert(TreeRows(t), StoredForm(e, next)))
  {
    var b, x, a := Route(t, e, next, h, lo, hi, cap, min);
    var o, leaf := TreeInsert(t, e, cap, next), LeafInsert(x, e, next);
    assert Local(o, leaf, b, a);
    RowsAround(b, x, a);
    PositionLocal(Rows(b), x.rows, Rows(a), e.id);
    InsertLocal(Rows(b), x.rows, Rows(a), StoredForm(e, next));
    LeafInsertRows(x, e, next);
    if Done(leaf) {
      RowsConcat(b + OutFringe(leaf), a);
      RowsConcat(b, OutFringe(leaf));
    }
  }

  lemma RootInsertFringe(o: Outcome)
    ensures Done(GrowRoot(o)) == Done(o) && OutFringe(GrowRoot(o)) == OutFringe(o)
  {
    if o.Split? { FringeTwo(o.left, o.right); }
  }
}
