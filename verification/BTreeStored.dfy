/** How a tree lies in pages: node contents, and the leaf chain in both directions. */
module BTreeStored {
  import opened Bytes
  import opened Overflow
  import opened LeafSplit
  import opened BTree
  import opened BTreeLeaves
  import opened BTreePages
  import opened Store

  type Pages = map<nat, Page>

  function Root(t: Tree): nat {
    if t.Leaf? then t.leaf.page else t.page
  }

  function Roots(kids: seq<Tree>): (s: seq<nat>)
    ensures |s| == |kids|
  {
    seq(|kids|, i requires 0 <= i < |kids| => Root(kids[i]))
  }

  /** Every node's page has the node's contents. Leaf links are not looked at. */
  ghost predicate Holds(v: Pages, t: Tree) {
    match t
    case Leaf(x) => x.page in v && v[x.page].LeafPage? && v[x.page].rows == x.rows
    case Branch(p, keys, kids) =>
      p in v && v[p] == BranchPage(keys, Roots(kids)) && forall i :: 0 <= i < |kids| ==> Holds(v, kids[i])
  }

  ghost predicate HoldsAll(v: Pages, kids: seq<Tree>) {
    forall i :: 0 <= i < |kids| ==> Holds(v, kids[i])
  }

  /** The number at position `i`, or the null link outside. */
  function At(ps: seq<nat>, i: int): nat {
    if 0 <= i < |ps| then ps[i] else 0
  }

  /** The pages `ps` are a doubly linked list of leaves in this order. */
  ghost predicate Chained(v: Pages, ps: seq<nat>) {
    forall i :: 0 <= i < |ps| ==>
      && ps[i] in v && v[ps[i]].LeafPage?
      && v[ps[i]].next == At(ps, i + 1) && v[ps[i]].prev == At(ps, i - 1)
  }

  /** Equal but for the links of a leaf. */
  predicate SameBody(p: Page, q: Page) {
    p == q || (p.LeafPage? && q.LeafPage? && p.rows == q.rows)
  }

  /** Pages outside `t` are as they were. */
  ghost predicate Frame(v: Pages, w: Pages, t: Tree) {
    forall q :: q in v && Uses(t, q) == 0 ==> q in w && w[q] == v[q]
  }

  /** The same leaf but for its back link. */
  predicate Relinked(p: Page, q: Page) {
    p.LeafPage? && q.LeafPage? && q == p.(prev := q.prev)
  }

  /** Pages outside `t` are as they were, except that leaf `next`, if there is one, may have a new back link. */
  ghost predicate FrameBut(v: Pages, w: Pages, t: Tree, next: nat) {
    forall q :: q in v && Uses(t, q) == 0 ==>
      q in w && (w[q] == v[q] || (q == next && q != 0 && Relinked(v[q], w[q])))
  }

  lemma {:induction false} HoldsFrame(v: Pages, w: Pages, t: Tree)
    requires Holds(v, t)
    requires forall q :: Uses(t, q) > 0 && q in v ==> q in w && SameBody(v[q], w[q])
    ensures Holds(w, t)
    decreases t
  {
    match t
    case Leaf(x) => assert Uses(t, x.page) > 0;
    case Branch(p, keys, kids) =>
      assert Uses(t, p) > 0;
      forall i | 0 <= i < |kids| ensures Holds(w, kids[i]) {
        forall q | Uses(kids[i], q) > 0 ensures Uses(t, q) > 0 {
          UsesReplace(kids, i, kids[i], q);
        }
        HoldsFrame(v, w, kids[i]);
      }
  }

  /** A page used by one child is used by no other child and not by the branch itself. */
  lemma KidPagesApart(t: Tree, i: nat, j: nat, q: nat)
    requires t.Branch? && i < |t.kids| && j < |t.kids| && i != j
    requires Uses(t, q) <= 1 && Uses(t.kids[i], q) > 0
    ensures Uses(t.kids[j], q) == 0 && q != t.page
  {
    UsesReplace(t.kids, i, t.kids[i], q);
    if j < i {
      UsesReplace(t.kids[..i], j, t.kids[j], q);
    } else {
      UsesReplace(t.kids[i + 1..], j - i - 1, t.kids[j], q);
    }
  }

  lemma KidUses(t: Tree, i: nat, q: nat)
    requires t.Branch? && i < |t.kids|
    ensures Uses(t.kids[i], q) <= Uses(t, q)
    ensures q == t.page ==> Uses(t.kids[i], q) + 1 <= Uses(t, q)
  {
    UsesReplace(t.kids, i, t.kids[i], q);
  }

  /** A tree whose pages do not repeat: changing only pages of child `i` keeps the other children. */
  lemma OtherKidsKept(t: Tree, i: nat, v: Pages, w: Pages, next: nat)
    requires t.Branch? && i < |t.kids| && Holds(v, t) && FrameBut(v, w, t.kids[i], next)
    requires forall q :: Uses(t, q) <= 1
    ensures forall j :: 0 <= j < |t.kids| && j != i ==> Holds(w, t.kids[j])
    ensures t.page in w && w[t.page] == v[t.page]
  {
    forall j | 0 <= j < |t.kids| && j != i ensures Holds(w, t.kids[j]) {
      forall q | Uses(t.kids[j], q) > 0 && q in v ensures q in w && SameBody(v[q], w[q]) {
        KidPagesApart(t, j, i, q);
      }
      HoldsFrame(v, w, t.kids[j]);
    }
    KidUses(t, i, t.page);
  }

  /** A tree on other pages, leaf chain included, is not disturbed by a change to `t`. */
  lemma OtherTreeKept(v: Pages, w: Pages, t: Tree, u: Tree)
    requires Frame(v, w, t) && Holds(v, u) && Chained(v, LeafPages(Fringe(u)))
    requires forall q :: Uses(u, q) > 0 ==> Uses(t, q) == 0
    ensures Holds(w, u) && Chained(w, LeafPages(Fringe(u)))
  {
    HoldsFrame(v, w, u);
    var f := Fringe(u);
    forall i | 0 <= i < |f| ensures Uses(u, f[i].page) > 0 { LeafIsNode(u, i); }
  }

  // ----- splicing the chain -----

  /** Rewriting the body of a leaf and keeping its links keeps the chain. */
  lemma ChainKept(v: Pages, w: Pages, ps: seq<nat>)
    requires Chained(v, ps)
    requires forall i :: 0 <= i < |ps| ==>
      ps[i] in w && w[ps[i]].LeafPage? && w[ps[i]].next == v[ps[i]].next && w[ps[i]].prev == v[ps[i]].prev
    ensures Chained(w, ps)
  {
  }

  /** Linking a new leaf `q` in after `p`. */
  lemma ChainSpliced(v: Pages, w: Pages, before: seq<nat>, p: nat, q: nat, after: seq<nat>)
    requires Chained(v, before + [p] + after)
    requires forall i :: 0 <= i < |before| ==> before[i] in v && before[i] in w && w[before[i]] == v[before[i]]
    requires p in w && w[p].LeafPage? && w[p].next == q && w[p].prev == At(before, |before| - 1)
    requires q in w && w[q].LeafPage? && w[q].next == At(after, 0) && w[q].prev == p
    requires after != [] ==>
      after[0] in w && w[after[0]].LeafPage? && w[after[0]].next == At(after, 1) && w[after[0]].prev == q
    requires forall i :: 1 <= i < |after| ==> after[i] in v && after[i] in w && w[after[i]] == v[after[i]]
    ensures Chained(w, before + [p, q] + after)
  {
    var ps, qs := before + [p] + after, before + [p, q] + after;
    var n := |before|;
    forall i | 0 <= i < |qs|
      ensures qs[i] in w && w[qs[i]].LeafPage? && w[qs[i]].next == At(qs, i + 1) && w[qs[i]].prev == At(qs, i - 1)
    {
      if i < n {
        assert qs[i] == ps[i] && At(qs, i + 1) == At(ps, i + 1) && At(qs, i - 1) == At(ps, i - 1);
      } else if i > n + 2 {
        assert qs[i] == ps[i - 1] == after[i - n - 2];
        assert At(qs, i + 1) == At(ps, i) && At(qs, i - 1) == At(ps, i - 2);
      }
    }
  }
}
