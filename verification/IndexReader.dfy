/** Reading a stored index: prefix scans and the key cursor. */
module IndexReader {
  import opened Seqs
  import opened Bytes
  import opened Overflow
  import opened BTree
  import opened BTreeShape
  import opened BTreeLeaves
  import opened BTreePages
  import opened BTreeStored
  import opened BTreeRuns
  import opened BTreeWriter
  import opened BTreeReader
  import opened Cursor
  import opened Store
  import opened IndexKey
  import opened IndexTree

  /** An index tree stored in the pages, rooted at `root`. */
  ghost predicate IndexStored(v: Pages, root: nat, t: Tree, h: nat, next: nat) {
    && Shaped(t) && Wf(t, h, 0, RANKS, INDEX_BRANCH_KEYS, 1) && h < MAX_TREE_DEPTH
    && root == Root(t) && Holds(v, t) && Owned(t, next)
    && Linked(v, LeafPages(Fringe(t)))
    && Coded(TreeRows(t))
  }

  /** What walking its leaf chain needs of it. */
  ghost predicate Walkable(v: Pages, t: Tree) {
    Holds(v, t) && Linked(v, LeafPages(Fringe(t))) && Coded(TreeRows(t))
  }

  /** The keys that start with a prefix, in order. */
  function Matching(ks: seq<seq<Byte>>, prefix: seq<Byte>): seq<seq<Byte>> {
    if ks == [] then [] else (if prefix <= ks[0] then [ks[0]] else []) + Matching(ks[1..], prefix)
  }

  /** The scanning loop: skip until the prefix is met, then take until it ends. */
  function Walk(ks: seq<seq<Byte>>, prefix: seq<Byte>, found: bool): seq<seq<Byte>> {
    if ks == [] then []
    else if prefix <= ks[0] then [ks[0]] + Walk(ks[1..], prefix, true)
    else if found then []
    else Walk(ks[1..], prefix, false)
  }

  // ----- prefixes in byte order -----

  lemma {:induction false} MatchingNone(ks: seq<seq<Byte>>, prefix: seq<Byte>)
    requires forall k :: k in ks ==> !(prefix <= k)
    ensures Matching(ks, prefix) == []
  {
    if ks != [] {
      assert ks[0] in ks && forall k :: k in ks[1..] ==> k in ks;
      MatchingNone(ks[1..], prefix);
    }
  }

  lemma {:induction false} MatchingConcat(a: seq<seq<Byte>>, b: seq<seq<Byte>>, prefix: seq<Byte>)
    ensures Matching(a + b, prefix) == Matching(a, prefix) + Matching(b, prefix)
  {
    if a == [] {
      EmptyFront(a, b);
    } else {
      MatchingConcat(a[1..], b, prefix);
      TailOfConcat(a, b);
    }
  }

  /** On sorted keys the walk takes exactly the keys with the prefix. */
  lemma {:induction false} WalkTakesAll(ks: seq<seq<Byte>>, prefix: seq<Byte>, found: bool, last: seq<Byte>)
    requires KeysSorted(ks)
    requires found ==> prefix <= last && forall k :: k in ks ==> LexLess(last, k)
    ensures Walk(ks, prefix, found) == Matching(ks, prefix)
    decreases |ks|
  {
    if ks != [] {
      assert ks[0] in ks;
      assert forall k :: k in ks[1..] ==> LexLess(ks[0], k);
      if prefix <= ks[0] {
        WalkTakesAll(ks[1..], prefix, true, ks[0]);
      } else if found {
        forall k | k in ks ensures !(prefix <= k) {
          if prefix <= k { PrefixConvex(prefix, last, ks[0], k); }
        }
        MatchingNone(ks, prefix);
      } else {
        WalkTakesAll(ks[1..], prefix, false, last);
      }
    }
  }

  // ----- where a scan starts -----

  lemma KeysConcat(a: seq<Entry>, b: seq<Entry>)
    ensures Keys(a + b) == Keys(a) + Keys(b)
  {
  }

  lemma LeafForKey(t: Tree, id: nat, h: nat) returns (j: nat)
    requires Shaped(t) && Wf(t, h, 0, RANKS, INDEX_BRANCH_KEYS, 1) && id < RANKS
    ensures BelongsAt(t, id, j) && Fringe(t)[j] == LeafFor(t, id)
  {
    var b, x, a := Route(t, Entry(id, []), 0, h, 0, RANKS, INDEX_BRANCH_KEYS, 1);
    j := |b|;
    assert Fringe(t)[..j] == b && Fringe(t)[j + 1..] == a;
  }

  lemma CodedParts(t: Tree, j: nat)
    requires Coded(TreeRows(t)) && j <= |Fringe(t)|
    ensures Coded(Rows(Fringe(t)[..j])) && Coded(Rows(Fringe(t)[j..]))
    ensures TreeRows(t) == Rows(Fringe(t)[..j]) + Rows(Fringe(t)[j..])
  {
    var f := Fringe(t);
    CutAt(f, j);
    RowsConcat(f[..j], f[j..]);
  }

  /** No key before the prefix's leaf starts with the prefix. */
  lemma StartsAtPrefix(t: Tree, h: nat, prefix: seq<Byte>, j: nat)
    requires Wf(t, h, 0, RANKS, INDEX_BRANCH_KEYS, 1) && Coded(TreeRows(t))
    requires |prefix| <= BRANCH_KEY_MAX && BelongsAt(t, Rank(prefix), j)
    ensures Walk(Keys(Rows(Fringe(t)[j..])), prefix, false) == Matching(Keys(TreeRows(t)), prefix)
  {
    CodedParts(t, j);
    var before, from := Rows(Fringe(t)[..j]), Rows(Fringe(t)[j..]);
    NonePrefixed(before, prefix);
    MatchingNone(Keys(before), prefix);
    KeysConcat(before, from);
    MatchingConcat(Keys(before), Keys(from), prefix);
    FringeSorted(t, h, 0, RANKS, INDEX_BRANCH_KEYS, 1);
    SortedKeys(TreeRows(t));
    SuffixSorted(Keys(before), Keys(from));
    WalkTakesAll(Keys(from), prefix, false, []);
  }

  lemma NonePrefixed(rows: seq<Entry>, prefix: seq<Byte>)
    requires Coded(rows) && |prefix| <= BRANCH_KEY_MAX && forall e :: e in rows ==> e.id < Rank(prefix)
    ensures forall k :: k in Keys(rows) ==> !(prefix <= k)
  {
    forall k | k in Keys(rows) ensures !(prefix <= k) {
      var i :| 0 <= i < |rows| && Keys(rows)[i] == k;
      assert rows[i] in rows;
      RankOrder(k, prefix, BRANCH_KEY_MAX);
      if prefix <= k { PrefixNotAbove(prefix, k); }
    }
  }

  lemma SuffixSorted(a: seq<seq<Byte>>, b: seq<seq<Byte>>)
    requires KeysSorted(a + b)
    ensures KeysSorted(b)
  {
    assert forall i :: 0 <= i < |b| ==> (a + b)[|a| + i] == b[i];
  }

  /** An entry of a leaf decodes to its key. */
  lemma EntryDecodes(rows: seq<Entry>, i: nat)
    requires Coded(rows) && i < |rows|
    ensures DecodeEntry(rows[i].data) == Some(Keys(rows)[i])
  {
    assert rows[i] in rows;
    EntryReads(KeyOf(rows[i]));
  }

  /** What the walk does with the next key of a leaf. */
  lemma WalkOne(ks: seq<seq<Byte>>, i: nat, later: seq<seq<Byte>>, prefix: seq<Byte>, found: bool)
    requires i < |ks|
    ensures Walk(ks[i..] + later, prefix, found) ==
      if prefix <= ks[i] then [ks[i]] + Walk(ks[i + 1..] + later, prefix, true)
      else if found then []
      else Walk(ks[i + 1..] + later, prefix, false)
  {
    CutAround(ks, i);
    TailOfConcat(ks[i..], later);
  }

  /** Keys from leaf `j` on. */
  function KeysFrom(f: seq<LeafRec>, j: nat): seq<seq<Byte>> {
    if j < |f| then Keys(Rows(f[j..])) else []
  }

  lemma KeysFromStep(f: seq<LeafRec>, j: nat)
    requires j < |f|
    ensures KeysFrom(f, j) == Keys(f[j].rows) + KeysFrom(f, j + 1)
  {
    CutAround(f, j);
    KeysConcat(f[j].rows, Rows(f[j + 1..]));
    if j + 1 == |f| { assert Rows(f[j + 1..]) == []; }
  }

  /** Leaf `j` on its page, linked to its neighbours, its entries holding keys. */
  ghost predicate KeyLeaf(v: Pages, f: seq<LeafRec>, j: nat)
    requires j < |f|
  {
    && f[j].page in v && v[f[j].page] == LeafPage(f[j].rows, At(LeafPages(f), j + 1), At(LeafPages(f), j - 1))
    && f[j].page != 0 && Coded(f[j].rows)
  }

  /** Everything a walk along the leaf chain needs to know about it. */
  ghost predicate KeyChain(v: Pages, f: seq<LeafRec>) {
    forall j: nat :: j < |f| ==> KeyLeaf(v, f, j)
  }

  lemma ChartKeys(v: Pages, t: Tree, next: nat)
    requires Walkable(v, t)
    ensures KeyChain(v, Fringe(t))
  {
    forall j: nat | j < |Fringe(t)| ensures KeyLeaf(v, Fringe(t), j) {
      ChainRead(v, t, next, j);
      LeafCoded(t, j);
    }
  }

  lemma LeafCoded(t: Tree, j: nat)
    requires Coded(TreeRows(t)) && j < |Fringe(t)|
    ensures Coded(Fringe(t)[j].rows)
  {
    CodedParts(t, j);
    assert Rows(Fringe(t)[j..]) == Fringe(t)[j].rows + Rows(Fringe(t)[j..][1..]);
  }

  /** How many keys a limited scan returns: it tests its limit after taking a key. */
  function Clip<T>(all: seq<T>, limit: Option<nat>): seq<T> {
    if limit.None? then all
    else
      var most := if limit.value == 0 then 1 else limit.value;
      if |all| <= most then all else all[..most]
  }

  /** The first `n`, or all if there are not so many. */
  function First<T>(all: seq<T>, n: nat): seq<T> {
    if |all| <= n then all else all[..n]
  }

  /** The limit is looked at after a key is taken: the clipped scan is the first `n` exactly when `n` is not 0 or nothing is there. */
  lemma ClipIsFirst<T>(all: seq<T>, n: nat)
    ensures Clip(all, Some(n)) == First(all, n) <==> n > 0 || all == []
  {
    if n == 0 && all != [] { assert |Clip(all, Some(n))| == 1; }
  }

  /** A leaf ends the scan or leaves it to go on. */
  datatype Scan<T> = Scan(acc: T, found: bool, finished: bool)

  /** A prefix scan under way: the goal is what has been taken and what the walk will still take. */
  ghost predicate Going(
      goal: seq<seq<Byte>>, s: Scan<seq<seq<Byte>>>, prefix: seq<Byte>, limit: Option<nat>, later: seq<seq<Byte>>)
  {
    goal == s.acc + Walk(later, prefix, s.found) && (limit.Some? ==> s.acc == [] || |s.acc| < limit.value)
  }

  ghost predicate GoingAt(
      goal: seq<seq<Byte>>, s: Scan<seq<seq<Byte>>>, prefix: seq<Byte>, limit: Option<nat>, f: seq<LeafRec>, j: nat)
  {
    Going(goal, s, prefix, limit, KeysFrom(f, j))
  }

  ghost predicate Counting(goal: nat, s: Scan<nat>, prefix: seq<Byte>, later: seq<seq<Byte>>) {
    goal == s.acc + |Walk(later, prefix, s.found)|
  }

  class IndexTreeReader {
    const guard: WriteGuard
    const root: nat

    constructor (guard: WriteGuard, root: nat)
      ensures this.guard == guard && this.root == root
    {
      this.guard, this.root := guard, root;
    }

    method FindLeafForKey(key: seq<Byte>, ghost t: Tree, ghost h: nat) returns (page: Option<nat>, ghost j: nat)
      requires guard.Valid() && IndexStored(guard.View(), root, t, h, guard.Next()) && |key| <= BRANCH_KEY_MAX
      ensures BelongsAt(t, Rank(key), j) && page == Some(Fringe(t)[j].page)
    {
      RankBound(key, BRANCH_KEY_MAX);
      j := LeafForKey(t, Rank(key), h);
      page := Descend(Rank(key), t, h, RANKS);
    }

    /** Every branch on the way compares the key with its separators. */
    method Descend(id: nat, ghost t: Tree, ghost h: nat, ghost top: nat) returns (page: Option<nat>)
      requires guard.Valid() && Shaped(t) && Wf(t, h, 0, top, INDEX_BRANCH_KEYS, 1) && h < MAX_TREE_DEPTH
      requires root == Root(t) && Holds(guard.View(), t) && id < top
      ensures page == Some(LeafFor(t, id).page)
    {
      var current := root;
      for depth := 0 to MAX_TREE_DEPTH
        invariant depth <= h && current == Root(SubAt(t, id, depth))
      {
        SubAtHeld(guard.View(), t, id, depth, h, 0, top, INDEX_BRANCH_KEYS, 1);
        var node := guard.ReadPage(current);
        if node.value.LeafPage? {
          return Some(current);
        }
        var i, child := FindChild(node.value.keys, node.value.children, id);
        current := child;
      }
      return None;
    }

    /** The page of leaf `j` and its forward link. */
    method ReadLeaf(current: nat, ghost f: seq<LeafRec>, ghost j: nat) returns (rows: seq<Entry>, next: nat)
      requires guard.Valid() && KeyChain(guard.View(), f) && j < |f| && current == f[j].page
      ensures Coded(rows) && KeysFrom(f, j) == Keys(rows) + KeysFrom(f, j + 1)
      ensures next == 0 <==> j + 1 == |f|
      ensures next != 0 ==> next == f[j + 1].page
    {
      KeysFromStep(f, j);
      assert KeyLeaf(guard.View(), f, j) && (j + 1 < |f| ==> KeyLeaf(guard.View(), f, j + 1));
      var page := guard.ReadPage(current);
      rows, next := page.value.rows, page.value.next;
    }

    /** One leaf of a prefix scan; `later` are the keys still to come. */
    method CollectLeaf(rows: seq<Entry>, prefix: seq<Byte>, found: bool, limit: Option<nat>, acc: seq<seq<Byte>>,
                       ghost later: seq<seq<Byte>>, ghost goal: seq<seq<Byte>>)
        returns (r: Scan<seq<seq<Byte>>>)
      requires Coded(rows) && goal == acc + Walk(Keys(rows) + later, prefix, found)
      requires limit.Some? ==> acc == [] || |acc| < limit.value
      ensures r.finished ==> r.acc == Clip(goal, limit)
      ensures !r.finished ==> goal == r.acc + Walk(later, prefix, r.found)
      ensures !r.finished && limit.Some? ==> r.acc == [] || |r.acc| < limit.value
    {
      var results, started := acc, found;
      ghost var ks := Keys(rows);
      for i := 0 to |rows|
        invariant goal == results + Walk(ks[i..] + later, prefix, started)
        invariant limit.Some? ==> results == [] || |results| < limit.value
      {
        EntryDecodes(rows, i);
        WalkOne(ks, i, later, prefix, started);
        var k := DecodeEntry(rows[i].data);
        if k.Some? {
          if prefix <= k.value {
            ghost var before := results;
            started, results := true, results + [k.value];
            Moved(goal, before, k.value, Walk(ks[i + 1..] + later, prefix, true));
            if limit.Some? && |results| >= limit.value {
              assert goal[..|results|] == results;
              return Scan(results, true, true);
            }
          } else if started {
            return Scan(results, true, true);
          }
        }
      }
      EmptyFront(ks[|rows|..], later);
      return Scan(results, started, false);
    }

    /** The first leaf of a prefix scan, and the most leaves a chain can have. */
    method StartScan(prefix: seq<Byte>, ghost t: Tree, ghost h: nat) returns (first: nat, maxPages: nat, ghost j: nat)
      requires guard.Valid() && IndexStored(guard.View(), root, t, h, guard.Next()) && |prefix| <= BRANCH_KEY_MAX
      ensures j < |Fringe(t)| <= maxPages && first == Fringe(t)[j].page
      ensures Walk(KeysFrom(Fringe(t), j), prefix, false) == Matching(Keys(TreeRows(t)), prefix)
      ensures KeyChain(guard.View(), Fringe(t))
    {
      ChartKeys(guard.View(), t, guard.Next());
      var page;
      page, j := FindLeafForKey(prefix, t, h);
      StartsAtPrefix(t, h, prefix, j);
      FewLeaves(t, guard.Next());
      first, maxPages := page.value, guard.file.numPages + guard.newPageCount;
    }

    /** Visits leaf `j` and reads its link. */
    method VisitPrefix(current: nat, prefix: seq<Byte>, limit: Option<nat>, s: Scan<seq<seq<Byte>>>,
                       ghost goal: seq<seq<Byte>>, ghost f: seq<LeafRec>, ghost j: nat)
        returns (r: Scan<seq<seq<Byte>>>, next: nat)
      requires guard.Valid() && KeyChain(guard.View(), f)
      requires j < |f| && current == f[j].page
      requires GoingAt(goal, s, prefix, limit, f, j)
      ensures r.finished || next == 0 ==> r.acc == Clip(goal, limit)
      ensures !r.finished && next != 0 ==>
                j + 1 < |f| && next == f[j + 1].page && GoingAt(goal, r, prefix, limit, f, j + 1)
    {
      var rows;
      rows, next := ReadLeaf(current, f, j);
      r := CollectLeaf(rows, prefix, s.found, limit, s.acc, KeysFrom(f, j + 1), goal);
    }

    /** All keys with the prefix in order, or the first so many of them. */
    method ScanPrefix(prefix: seq<Byte>, limit: Option<nat>, ghost t: Tree, ghost h: nat)
        returns (r: ScanOutcome<seq<seq<Byte>>>)
      requires guard.Valid() && IndexStored(guard.View(), root, t, h, guard.Next()) && |prefix| <= BRANCH_KEY_MAX
      ensures r == Done(Clip(Matching(Keys(TreeRows(t)), prefix), limit))
      ensures var all := Matching(Keys(TreeRows(t)), prefix);
              limit.Some? ==> (r == Done(First(all, limit.value)) <==> limit.value > 0 || all == [])
    {
      if limit.Some? { ClipIsFirst(Matching(Keys(TreeRows(t)), prefix), limit.value); }
      var first, maxPages, j := StartScan(prefix, t, h);
      EmptyFront([], Walk(KeysFrom(Fringe(t), j), prefix, false));
      r := CollectFrom(first, maxPages, prefix, limit, Matching(Keys(TreeRows(t)), prefix), Fringe(t), j);
    }

    method CollectFrom(first: nat, maxPages: nat, prefix: seq<Byte>, limit: Option<nat>,
                       ghost goal: seq<seq<Byte>>, ghost f: seq<LeafRec>, ghost start: nat)
        returns (r: ScanOutcome<seq<seq<Byte>>>)
      requires guard.Valid() && KeyChain(guard.View(), f)
      requires start < |f| <= maxPages && first == f[start].page
      requires GoingAt(goal, Scan([], false, false), prefix, limit, f, start)
      ensures r == Done(Clip(goal, limit))
    {
      ghost var j := start;
      var visited, next, current := 0, 0, first;
      var s: Scan<seq<seq<Byte>>> := Scan([], false, false);
      while true
        invariant 0 <= j < |f| && current == f[j].page && visited <= j
        invariant GoingAt(goal, s, prefix, limit, f, j)
        decreases |f| - j
      {
        visited := visited + 1;
        if visited > maxPages { return ChainCycleError; }
        s, next := VisitPrefix(current, prefix, limit, s, goal, f, j);
        if s.finished || next == 0 { return Done(s.acc); }
        j, current := j + 1, next;
      }
    }

    /** One leaf of a prefix count. */
    method CountLeaf(rows: seq<Entry>, prefix: seq<Byte>, found: bool, acc: nat, ghost later: seq<seq<Byte>>)
        returns (r: Scan<nat>)
      requires Coded(rows)
      ensures var total := acc + |Walk(Keys(rows) + later, prefix, found)|;
              total == if r.finished then r.acc else r.acc + |Walk(later, prefix, r.found)|
    {
      var count: nat, started := acc, found;
      ghost var ks := Keys(rows);
      assert ks[0..] == ks;
      for i := 0 to |rows|
        invariant acc + |Walk(ks + later, prefix, found)| == count + |Walk(ks[i..] + later, prefix, started)|
      {
        EntryDecodes(rows, i);
        WalkOne(ks, i, later, prefix, started);
        var k := DecodeEntry(rows[i].data);
        if k.Some? {
          if prefix <= k.value {
            started, count := true, count + 1;
          } else if started {
            return Scan(count, true, true);
          }
        }
      }
      EmptyFront(ks[|rows|..], later);
      return Scan(count, started, false);
    }

    /** The number of keys with the prefix. */
    method CountPrefix(prefix: seq<Byte>, ghost t: Tree, ghost h: nat) returns (r: ScanOutcome<nat>)
      requires guard.Valid() && IndexStored(guard.View(), root, t, h, guard.Next()) && |prefix| <= BRANCH_KEY_MAX
      ensures r == Done(|Matching(Keys(TreeRows(t)), prefix)|)
    {
      var first, maxPages, j := StartScan(prefix, t, h);
      r := CountFrom(first, maxPages, prefix, |Matching(Keys(TreeRows(t)), prefix)|, Fringe(t), j);
    }

    method CountFrom(first: nat, maxPages: nat, prefix: seq<Byte>, ghost goal: nat, ghost f: seq<LeafRec>, ghost start: nat)
        returns (r: ScanOutcome<nat>)
      requires guard.Valid() && KeyChain(guard.View(), f)
      requires start < |f| <= maxPages && first == f[start].page
      requires goal == |Walk(KeysFrom(f, start), prefix, false)|
      ensures r == Done(goal)
    {
      ghost var j := start;
      var visited, next, current := 0, 0, first;
      var s: Scan<nat> := Scan(0, false, false);
      while true
        invariant 0 <= j < |f| && current == f[j].page && visited <= j
        invariant Counting(goal, s, prefix, KeysFrom(f, j))
        decreases |f| - j
      {
        visited := visited + 1;
        if visited > maxPages { return ChainCycleError; }
        s, next := VisitCount(current, prefix, s, goal, f, j);
        if s.finished || next == 0 { return Done(s.acc); }
        j, current := j + 1, next;
      }
    }

    method VisitCount(current: nat, prefix: seq<Byte>, s: Scan<nat>, ghost goal: nat, ghost f: seq<LeafRec>, ghost j: nat)
        returns (r: Scan<nat>, next: nat)
      requires guard.Valid() && KeyChain(guard.View(), f)
      requires j < |f| && current == f[j].page
      requires Counting(goal, s, prefix, KeysFrom(f, j))
      ensures r.finished || next == 0 ==> r.acc == goal
      ensures !r.finished && next != 0 ==>
                && j + 1 < |f| && next == f[j + 1].page
                && Counting(goal, r, prefix, KeysFrom(f, j + 1))
    {
      var rows;
      rows, next := ReadLeaf(current, f, j);
      r := CountLeaf(rows, prefix, s.found, s.acc, KeysFrom(f, j + 1));
    }

    method FindLeftmostLeaf(ghost t: Tree, ghost h: nat, ghost top: nat) returns (page: Option<nat>)
      requires guard.Valid() && Wf(t, h, 0, top, INDEX_BRANCH_KEYS, 1) && h < MAX_TREE_DEPTH
      requires root == Root(t) && Holds(guard.View(), t)
      ensures |Fringe(t)| > 0 && page == Some(Fringe(t)[0].page)
    {
      var current := root;
      LeftmostLeaf(t, h, 0, top, INDEX_BRANCH_KEYS, 1);
      ghost var sub, hs: nat, lo: nat, hi: nat, min: nat := t, h, 0, top, 1;
      for depth := 0 to MAX_TREE_DEPTH
        invariant Wf(sub, hs, lo, hi, INDEX_BRANCH_KEYS, min)
        invariant current == Root(sub) && Holds(guard.View(), sub)
        invariant depth + hs == h && |Fringe(sub)| > 0 && Fringe(sub)[0] == Fringe(t)[0]
      {
        var node := guard.ReadPage(current);
        if node.value.LeafPage? { return Some(current); }
        current := node.value.children[0];
        LeftmostLeaf(sub, hs, lo, hi, INDEX_BRANCH_KEYS, min);
        lo, hi, min := Bound(sub.keys, lo, hi, 0), Bound(sub.keys, lo, hi, 1), MinKeys(INDEX_BRANCH_KEYS);
        hs := hs - 1;
        sub := sub.kids[0];
      }
      return None;
    }

    /** Unlike the row tree this takes the last child by its position. */
    method FindRightmostLeaf(ghost t: Tree, ghost h: nat, ghost top: nat) returns (page: Option<nat>)
      requires guard.Valid() && Wf(t, h, 0, top, INDEX_BRANCH_KEYS, 1) && h < MAX_TREE_DEPTH
      requires root == Root(t) && Holds(guard.View(), t)
      ensures |Fringe(t)| > 0 && page == Some(Fringe(t)[|Fringe(t)| - 1].page)
    {
      var current := root;
      RightmostLeaf(t, h, 0, top, INDEX_BRANCH_KEYS, 1);
      ghost var sub, hs: nat, lo: nat, hi: nat, min: nat := t, h, 0, top, 1;
      for depth := 0 to MAX_TREE_DEPTH
        invariant Wf(sub, hs, lo, hi, INDEX_BRANCH_KEYS, min)
        invariant current == Root(sub) && Holds(guard.View(), sub)
        invariant depth + hs == h && |Fringe(sub)| > 0
        invariant Fringe(sub)[|Fringe(sub)| - 1] == Fringe(t)[|Fringe(t)| - 1]
      {
        var node := guard.ReadPage(current);
        if node.value.LeafPage? { return Some(current); }
        var n := |node.value.keys|;
        current := node.value.children[n];
        RightmostLeaf(sub, hs, lo, hi, INDEX_BRANCH_KEYS, min);
        lo, hi, min := Bound(sub.keys, lo, hi, n), Bound(sub.keys, lo, hi, n + 1), MinKeys(INDEX_BRANCH_KEYS);
        hs := hs - 1;
        sub := sub.kids[n];
      }
      return None;
    }

    /** Where a cursor starts: the leaf of its bound, or the first leaf in scan direction. */
    method StartCursor(after: Option<seq<Byte>>, dir: Dir, ghost t: Tree, ghost h: nat)
        returns (first: nat, maxPages: nat, ghost j: nat)
      requires guard.Valid() && IndexStored(guard.View(), root, t, h, guard.Next()) && BoundOk(after)
      ensures j < |Fringe(t)| <= maxPages && first == Fringe(t)[j].page
      ensures Coming(t, dir, j, after) == Beyonds(t, dir, after)
    {
      FewLeaves(t, guard.Next());
      maxPages := guard.file.numPages + guard.newPageCount;
      var page;
      if after.Some? {
        page, j := FindLeafForKey(after.value, t, h);
        NoneSkipped(t, dir, Rank(after.value), j);
      } else if dir.Asc? {
        page := FindLeftmostLeaf(t, h, RANKS);
        j := 0;
        assert Fringe(t)[0..] == Fringe(t);
      } else {
        page := FindRightmostLeaf(t, h, RANKS);
        j := |Fringe(t)| - 1;
        assert Fringe(t)[..j + 1] == Fringe(t);
      }
      first := page.value;
    }

    /** One leaf of the cursor in scan direction. */
    method CursorLeaf(rows: seq<Entry>, after: Option<seq<Byte>>, dir: Dir, limit: nat, acc: seq<seq<Byte>>,
                      ghost later: seq<Entry>, ghost goal: seq<seq<Byte>>)
        returns (r: Scan<seq<seq<Byte>>>)
      requires Coded(rows) && BoundOk(after) && |acc| <= limit
      requires goal == acc + Keys(Candidates(Listed(rows, dir), dir, RankOf(after)) + later)
      ensures r.finished ==> |goal| > limit && r.acc == goal[..limit]
      ensures !r.finished ==> |r.acc| <= limit && goal == r.acc + Keys(later)
    {
      var results := acc;
      ghost var list := Listed(rows, dir);
      ghost var left := Candidates(list, dir, RankOf(after)) + later;
      assert list[0..] == list;
      for i := 0 to |rows|
        invariant |results| <= limit && goal == results + Keys(left)
        invariant left == Candidates(list[i..], dir, RankOf(after)) + later
      {
        var e := rows[if dir.Asc? then i else |rows| - 1 - i];
        ghost var rest := Candidates(list[i + 1..], dir, RankOf(after)) + later;
        CursorStep(rows, e, list, i, dir, after, later);
        var k := DecodeEntry(e.data);
        if k.Some? && PastBound(k.value, dir, after) {
          TakeOne(goal, results, e, rest);
          if |results| >= limit {
            return Scan(results, true, true);
          }
          results := results + [k.value];
        } else {
          EmptyFront([], rest);
        }
        left := rest;
      }
      EmptyFront(Candidates(list[|rows|..], dir, RankOf(after)), later);
      return Scan(results, false, false);
    }

    /** Visits leaf `j` and reads the link in scan direction. */
    method VisitKeys(current: nat, after: Option<seq<Byte>>, dir: Dir, limit: nat, acc: seq<seq<Byte>>,
                     ghost goal: seq<seq<Byte>>, ghost t: Tree, ghost j: nat)
        returns (r: Scan<seq<seq<Byte>>>, neighbour: nat)
      requires guard.Valid() && Walkable(guard.View(), t) && BoundOk(after)
      requires j < |Fringe(t)| && current == Fringe(t)[j].page && |acc| <= limit
      requires goal == acc + Keys(Coming(t, dir, j, after))
      ensures r.finished ==> |goal| > limit && r.acc == goal[..limit]
      ensures !r.finished ==> |r.acc| <= limit && (neighbour == 0 ==> goal == r.acc)
      ensures !r.finished && neighbour != 0 ==>
                && Left(Fringe(t), dir, j) > 1 && neighbour == Fringe(t)[Beside(dir, j)].page
                && goal == r.acc + Keys(Coming(t, dir, Beside(dir, j), after))
    {
      ChainRead(guard.View(), t, guard.Next(), j);
      LeafCoded(t, j);
      ComingStep(t, dir, j, after);
      var page := guard.ReadPage(current);
      neighbour := if dir.Asc? then page.value.next else page.value.prev;
      if neighbour == 0 { LinkIsNull(t, guard.View(), dir, j); } else { LinkIsNext(t, guard.View(), dir, j); }
      ghost var later := if neighbour == 0 then [] else Coming(t, dir, Beside(dir, j), after);
      r := CursorLeaf(page.value.rows, after, dir, limit, acc, later, goal);
    }

    /**
     * The first `limit` keys strictly past the bound in scan direction, and whether a
     * further key exists.
     */
    method ScanFromKey(after: Option<seq<Byte>>, dir: Dir, limit: nat, ghost t: Tree, ghost h: nat)
        returns (r: ScanOutcome<(seq<seq<Byte>>, bool)>)
      requires guard.Valid() && IndexStored(guard.View(), root, t, h, guard.Next()) && BoundOk(after)
      ensures var all := Keys(Beyonds(t, dir, after));
              r == Done(if limit == 0 then ([], false) else if |all| <= limit then (all, false) else (all[..limit], true))
    {
      if limit == 0 { return Done(([], false)); }
      var first, maxPages, j := StartCursor(after, dir, t, h);
      r := CursorFrom(first, maxPages, after, dir, limit, Keys(Beyonds(t, dir, after)), t, j);
    }

    method CursorFrom(first: nat, maxPages: nat, after: Option<seq<Byte>>, dir: Dir, limit: nat,
                      ghost goal: seq<seq<Byte>>, ghost t: Tree, ghost start: nat)
        returns (r: ScanOutcome<(seq<seq<Byte>>, bool)>)
      requires guard.Valid() && Walkable(guard.View(), t) && BoundOk(after) && limit > 0
      requires start < |Fringe(t)| <= maxPages && first == Fringe(t)[start].page
      requires goal == Keys(Coming(t, dir, start, after))
      ensures r == Done(if |goal| <= limit then (goal, false) else (goal[..limit], true))
    {
      ghost var j := start;
      var visited, neighbour, current := 0, 0, first;
      var s: Scan<seq<seq<Byte>>> := Scan([], false, false);
      while true
        invariant 0 <= j < |Fringe(t)| && current == Fringe(t)[j].page
        invariant visited + Left(Fringe(t), dir, j) <= |Fringe(t)|
        invariant |s.acc| <= limit && goal == s.acc + Keys(Coming(t, dir, j, after))
        decreases Left(Fringe(t), dir, j)
      {
        visited := visited + 1;
        if visited > maxPages { return ChainCycleError; }
        s, neighbour := VisitKeys(current, after, dir, limit, s.acc, goal, t, j);
        if s.finished { return Done((s.acc, true)); }
        if neighbour == 0 { return Done((s.acc, false)); }
        j, current := Beside(dir, j), neighbour;
      }
    }
  }

  predicate BoundOk(after: Option<seq<Byte>>) {
    after.Some? ==> |after.value| <= BRANCH_KEY_MAX
  }

  function RankOf(after: Option<seq<Byte>>): (id: Option<nat>)
    requires BoundOk(after)
  {
    if after.None? then None else Some(Rank(after.value))
  }

  /** The exclusive bound as the scan compares it, on bytes. */
  predicate PastBound(key: seq<Byte>, dir: Dir, after: Option<seq<Byte>>) {
    after.None? || (if dir.Asc? then LexLess(after.value, key) else LexLess(key, after.value))
  }

  lemma BoundByBytes(e: Entry, dir: Dir, after: Option<seq<Byte>>)
    requires CodedEntry(e) && BoundOk(after)
    ensures PastBound(KeyOf(e), dir, after) == Beyond(dir, RankOf(after), e.id)
  {
    if after.Some? {
      RankOrder(after.value, KeyOf(e), BRANCH_KEY_MAX);
      RankOrder(KeyOf(e), after.value, BRANCH_KEY_MAX);
    }
  }

  /** The index entries past a bound in scan order, and those of them from leaf `j` on. */
  function Beyonds(t: Tree, dir: Dir, after: Option<seq<Byte>>): seq<Entry>
    requires BoundOk(after)
  {
    Candidates(Listed(TreeRows(t), dir), dir, RankOf(after))
  }

  function Coming(t: Tree, dir: Dir, j: nat, after: Option<seq<Byte>>): seq<Entry>
    requires j < |Fringe(t)| && BoundOk(after)
  {
    Candidates(From(t, dir, j), dir, RankOf(after))
  }

  lemma CandidatesStep(list: seq<Entry>, i: nat, dir: Dir, after: Option<nat>, later: seq<Entry>)
    requires i < |list|
    ensures Candidates(list[i..], dir, after) + later ==
      (if Beyond(dir, after, list[i].id) then [list[i]] else []) + (Candidates(list[i + 1..], dir, after) + later)
  {
    CutAround(list, i);
  }

  /** What the cursor makes of one entry: its key, and whether it is past the bound. */
  lemma CursorStep(rows: seq<Entry>, e: Entry, list: seq<Entry>, i: nat, dir: Dir, after: Option<seq<Byte>>, later: seq<Entry>)
    requires Coded(rows) && e in rows && BoundOk(after) && i < |list| && list[i] == e
    ensures DecodeEntry(e.data) == Some(KeyOf(e))
    ensures Candidates(list[i..], dir, RankOf(after)) + later ==
      (if PastBound(KeyOf(e), dir, after) then [e] else []) + (Candidates(list[i + 1..], dir, RankOf(after)) + later)
  {
    EntryReads(KeyOf(e));
    CandidatesStep(list, i, dir, RankOf(after), later);
    BoundByBytes(e, dir, after);
  }

  lemma TakeOne(goal: seq<seq<Byte>>, results: seq<seq<Byte>>, e: Entry, rest: seq<Entry>)
    requires goal == results + Keys([e] + rest)
    ensures goal == (results + [KeyOf(e)]) + Keys(rest)
    ensures |goal| > |results| && goal[..|results|] == results
  {
    assert Keys([e] + rest) == [KeyOf(e)] + Keys(rest);
  }

  lemma ComingStep(t: Tree, dir: Dir, j: nat, after: Option<seq<Byte>>)
    requires j < |Fringe(t)| && BoundOk(after)
    ensures Coming(t, dir, j, after) ==
      Candidates(Listed(Fringe(t)[j].rows, dir), dir, RankOf(after))
      + (if Left(Fringe(t), dir, j) == 1 then [] else Coming(t, dir, Beside(dir, j), after))
  {
    var others := if Left(Fringe(t), dir, j) == 1 then [] else From(t, dir, Beside(dir, j));
    RawStep(t, dir, j);
    CandidatesConcat(Listed(Fringe(t)[j].rows, dir), others, dir, RankOf(after));
  }

  lemma NoneSkipped(t: Tree, dir: Dir, id: nat, j: nat)
    requires BelongsAt(t, id, j)
    ensures Candidates(From(t, dir, j), dir, Some(id)) == Candidates(Listed(TreeRows(t), dir), dir, Some(id))
  {
    var f := Fringe(t);
    if dir.Asc? {
      CutAt(f, j);
      RowsConcat(f[..j], f[j..]);
      ListedConcat(Rows(f[..j]), Rows(f[j..]), dir);
      SkipHead(Rows(f[..j]), Rows(f[j..]), dir, id);
    } else {
      CutAt(f, j + 1);
      RowsConcat(f[..j + 1], f[j + 1..]);
      ListedConcat(Rows(f[..j + 1]), Rows(f[j + 1..]), dir);
      SkipHead(Rows(f[j + 1..]), Rows(f[..j + 1]), dir, id);
    }
  }

  lemma SkipHead(skipped: seq<Entry>, rest: seq<Entry>, dir: Dir, id: nat)
    requires forall e :: e in skipped ==> !Beyond(dir, Some(id), e.id)
    ensures Candidates(Listed(skipped, dir) + Listed(rest, dir), dir, Some(id)) == Candidates(Listed(rest, dir), dir, Some(id))
  {
    CandidatesConcat(Listed(skipped, dir), Listed(rest, dir), dir, Some(id));
    NoCandidates(Listed(skipped, dir), dir, Some(id));
  }

  lemma Moved<T>(goal: seq<T>, before: seq<T>, x: T, rest: seq<T>)
    requires goal == before + ([x] + rest)
    ensures goal == (before + [x]) + rest
  {
  }
}
