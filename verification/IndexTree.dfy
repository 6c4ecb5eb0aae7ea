/** The secondary index: the tree over key strings, as a sorted set of keys. */
module IndexTree {
  import opened Bytes
  import opened Overflow
  import opened LeafSplit
  import opened BTree
  import opened BTreeShape
  import opened BTreeLeaves
  import opened BTreePages
  import opened BTreeRuns
  import opened BTreeOverrun
  import opened IndexKey
  import opened Store

  /** Keys end in a rowid and fit a branch entry. */
  predicate KeyOk(key: seq<Byte>) {
    8 <= |key| <= BRANCH_KEY_MAX
  }

  /** The entry of a key: length, then the bytes; the tree orders it by its rank. */
  function KeyEntry(key: seq<Byte>): (e: Entry)
    requires |key| <= BRANCH_KEY_MAX
    ensures e.id < RANKS
  {
    RankBound(key, BRANCH_KEY_MAX);
    Entry(Rank(key), Le(|key|, 2) + key)
  }

  /** The key in an entry, none when the entry is too short for the length it claims. */
  function DecodeEntry(data: seq<Byte>): Option<seq<Byte>> {
    if |data| < 2 || 2 + FromLe(data[..2]) > |data| then None else Some(data[2..2 + FromLe(data[..2])])
  }

  lemma EntryReads(key: seq<Byte>)
    requires |key| <= BRANCH_KEY_MAX
    ensures DecodeEntry(KeyEntry(key).data) == Some(key)
  {
    EntryBytesRead(key);
  }

  lemma EntryBytesRead(key: seq<Byte>)
    requires |key| < 0x1_0000
    ensures DecodeEntry(Le(|key|, 2) + key) == Some(key)
  {
    PowValues();
    LeRoundTrip(|key|, 2);
    HeadRead(Le(|key|, 2), key);
  }

  lemma HeadRead(head: seq<Byte>, key: seq<Byte>)
    requires |head| == 2 && FromLe(head) == |key|
    ensures DecodeEntry(head + key) == Some(key)
  {
    var data := head + key;
    assert data[..2] == head;
    assert data[2..2 + |key|] == key;
  }

  /** A branch entry: child, key length, and at most 36 bytes of the key, padded. */
  function BranchEntry(child: nat, key: seq<Byte>): (s: seq<Byte>)
    ensures |s| == 6 + BRANCH_KEY_MAX
  {
    var len := if |key| < BRANCH_KEY_MAX then |key| else BRANCH_KEY_MAX;
    Le(child, 4) + Le(len, 2) + key[..len] + seq(BRANCH_KEY_MAX - len, _ => 0)
  }

  function BranchEntryKey(entry: seq<Byte>): seq<Byte>
    requires |entry| == 6 + BRANCH_KEY_MAX
  {
    var len := Field(entry, 4, 2);
    entry[6..6 + if len < BRANCH_KEY_MAX then len else BRANCH_KEY_MAX]
  }

  /** A branch keeps a separator whole exactly when it has at most 36 bytes. */
  lemma BranchKeepsKey(child: nat, key: seq<Byte>)
    ensures BranchEntryKey(BranchEntry(child, key)) == key <==> |key| <= BRANCH_KEY_MAX
  {
    var len := if |key| < BRANCH_KEY_MAX then |key| else BRANCH_KEY_MAX;
    PowValues();
    LeRoundTrip(len, 2);
    BranchFields(Le(child, 4), Le(len, 2), key[..len], seq(BRANCH_KEY_MAX - len, _ => 0));
  }

  /** What a branch keeps of a separator. */
  function CutKey(key: seq<Byte>): seq<Byte> {
    key[..if |key| < BRANCH_KEY_MAX then |key| else BRANCH_KEY_MAX]
  }

  /**
   * A key is routed by the kept part of a separator as by the whole one, unless it begins with
   * the kept part and still is below the separator.
   */
  lemma CutRoutes(key: seq<Byte>, sep: seq<Byte>)
    ensures (LexLess(key, CutKey(sep)) <==> LexLess(key, sep)) <==> !(CutKey(sep) <= key && LexLess(key, sep))
    ensures |sep| <= BRANCH_KEY_MAX ==> CutKey(sep) == sep
  {
    PrefixRoutes(key, CutKey(sep), sep);
  }

  lemma {:induction false} PrefixRoutes(key: seq<Byte>, p: seq<Byte>, sep: seq<Byte>)
    requires p <= sep
    ensures LexLess(key, p) ==> LexLess(key, sep) && !(p <= key)
    ensures LexLess(key, sep) && !LexLess(key, p) ==> p <= key
  {
    if p != [] && key != [] && key[0] == p[0] {
      assert p[1..] <= sep[1..];
      PrefixRoutes(key[1..], p[1..], sep[1..]);
      assert p <= key <==> p[1..] <= key[1..];
    }
  }

  /** Keys with one prefix are next to each other. */
  lemma {:induction false} PrefixConvex(prefix: seq<Byte>, a: seq<Byte>, b: seq<Byte>, c: seq<Byte>)
    requires prefix <= a && prefix <= c && LexLess(a, b) && LexLess(b, c)
    ensures prefix <= b
  {
    if prefix != [] {
      assert prefix[1..] <= a[1..] && prefix[1..] <= c[1..];
      PrefixConvex(prefix[1..], a[1..], b[1..], c[1..]);
      assert prefix == [prefix[0]] + prefix[1..] && b == [b[0]] + b[1..];
    }
  }

  /**
   * After a leaf is cut before its key `mid`, the kept separator routes every key to its own
   * half exactly when the last key on the left does not begin with it; with keys of at most 36
   * bytes that is always so.
   */
  lemma SplitRoutes(ks: seq<seq<Byte>>, mid: nat)
    requires KeysSorted(ks) && 0 < mid < |ks|
    ensures (forall i :: 0 <= i < |ks| ==> (LexLess(ks[i], CutKey(ks[mid])) <==> i < mid)) <==> !(CutKey(ks[mid]) <= ks[mid - 1])
    ensures |ks[mid]| <= BRANCH_KEY_MAX ==> !(CutKey(ks[mid]) <= ks[mid - 1])
  {
    var sep, cut := ks[mid], CutKey(ks[mid]);
    LexIrreflexive(sep);
    forall i | 0 <= i < |ks|
      ensures LexLess(ks[i], sep) <==> i < mid
      ensures i < mid && cut <= ks[i] ==> cut <= ks[mid - 1]
    {
      if i > mid && LexLess(ks[i], sep) { LexAsymmetric(ks[i], sep); }
      if i < mid - 1 && cut <= ks[i] { PrefixConvex(cut, ks[i], ks[mid - 1], sep); }
    }
    forall i | 0 <= i < |ks| ensures LexLess(ks[i], cut) <==> i < mid && !(cut <= ks[i]) { CutRoutes(ks[i], sep); PrefixRoutes(ks[i], cut, sep); }
    if sep <= ks[mid - 1] { PrefixNotAbove(sep, ks[mid - 1]); }
  }

  lemma {:induction false} PrefixNotAbove(p: seq<Byte>, key: seq<Byte>)
    requires p <= key
    ensures !LexLess(key, p)
  {
    if p != [] {
      assert p[1..] <= key[1..];
      PrefixNotAbove(p[1..], key[1..]);
    }
  }

  lemma BranchFields(a: seq<Byte>, b: seq<Byte>, c: seq<Byte>, d: seq<Byte>)
    requires |a| == 4 && |b| == 2
    ensures (a + b + c + d)[4..6] == b && (a + b + c + d)[6..6 + |c|] == c
  {
  }

  function KeyOf(e: Entry): seq<Byte> {
    if |e.data| >= 2 then e.data[2..] else []
  }

  predicate CodedEntry(e: Entry) {
    KeyOk(KeyOf(e)) && e == KeyEntry(KeyOf(e))
  }

  predicate Coded(rows: seq<Entry>) {
    forall e :: e in rows ==> CodedEntry(e)
  }

  function Keys(rows: seq<Entry>): (ks: seq<seq<Byte>>)
    ensures |ks| == |rows| && forall i :: 0 <= i < |rows| ==> ks[i] == KeyOf(rows[i])
  {
    seq(|rows|, i requires 0 <= i < |rows| => KeyOf(rows[i]))
  }

  ghost predicate KeysSorted(ks: seq<seq<Byte>>) {
    forall i, j :: 0 <= i < j < |ks| ==> LexLess(ks[i], ks[j])
  }

  lemma KeyOfEntry(key: seq<Byte>)
    requires KeyOk(key)
    ensures KeyOf(KeyEntry(key)) == key && CodedEntry(KeyEntry(key))
  {
    assert KeyEntry(key).data[2..] == key;
  }

  /** Rows in rank order hold their keys in byte order. */
  lemma SortedKeys(rows: seq<Entry>)
    requires Sorted(rows) && Coded(rows)
    ensures KeysSorted(Keys(rows))
  {
    forall i, j | 0 <= i < j < |rows| ensures LexLess(Keys(rows)[i], Keys(rows)[j]) {
      assert rows[i] in rows && rows[j] in rows;
      RankOrder(KeyOf(rows[i]), KeyOf(rows[j]), BRANCH_KEY_MAX);
    }
  }

  /** A key is in the rows exactly when its rank is found. */
  lemma KeyFound(rows: seq<Entry>, key: seq<Byte>)
    requires Sorted(rows) && Coded(rows) && KeyOk(key)
    ensures key in Keys(rows) <==> Contains(rows, Rank(key))
    ensures key in Keys(rows) <==> RowsSearch(rows, Rank(key)).Found?
  {
    if key in Keys(rows) {
      var i :| 0 <= i < |rows| && Keys(rows)[i] == key;
      assert rows[i] in rows;
      BoundUnique(rows, Rank(key), i);
    }
    if Contains(rows, Rank(key)) {
      var pos := LowerBound(rows, Rank(key));
      assert rows[pos] in rows;
      RankOrder(KeyOf(rows[pos]), key, BRANCH_KEY_MAX);
      assert Keys(rows)[pos] == key;
    }
  }

  // ----- operations and runs -----

  datatype IndexState = IndexState(t: Tree, next: nat)
  datatype IndexOp = Add(key: seq<Byte>) | Take(key: seq<Byte>) | Has(key: seq<Byte>) | OtherPages(pages: nat)
  datatype IndexAnswer = Added | Taken(existed: bool) | Present(found: bool) | Allocated | FileFull | Broken

  function Apply(s: IndexState, op: IndexOp): (IndexState, IndexAnswer)
    requires Shaped(s.t) && OpKeyOk(op)
  {
    match op
    case Add(key) =>
      (match RootInsert(s.t, KeyEntry(key), INDEX_BRANCH_KEYS, s.next)
       case Fit(t, n) => if n > MAX_PAGES then (s, FileFull) else (IndexState(t, n), Added)
       case _ => (s, Broken))
    case Take(key) => (s.(t := TreeDelete(s.t, Rank(key))), Taken(TreeSearch(s.t, Rank(key)).Found?))
    case Has(key) => (s, Present(TreeSearch(s.t, Rank(key)).Found?))
    case OtherPages(n) => if s.next + n > MAX_PAGES then (s, FileFull) else (s.(next := s.next + n), Allocated)
  }

  predicate OpKeyOk(op: IndexOp) {
    op.OtherPages? || KeyOk(op.key)
  }

  function ApplySet(m: set<seq<Byte>>, op: IndexOp): (set<seq<Byte>>, IndexAnswer) {
    match op
    case Add(key) => (m + {key}, Added)
    case Take(key) => (m - {key}, Taken(key in m))
    case Has(key) => (m, Present(key in m))
    case OtherPages(_) => (m, Allocated)
  }

  ghost predicate IndexValid(s: IndexState, h: nat) {
    && Shaped(s.t) && Wf(s.t, h, 0, RANKS, INDEX_BRANCH_KEYS, 1)
    && 1 <= s.next <= MAX_PAGES && Owned(s.t, s.next)
    && Coded(TreeRows(s.t))
  }

  /** The tree holds exactly the keys of the set. */
  ghost predicate SameKeys(s: IndexState, m: set<seq<Byte>>) {
    forall key :: key in m <==> key in Keys(TreeRows(s.t))
  }

  lemma EmptyIndexValid(page: nat)
    requires 1 <= page < MAX_PAGES
    ensures IndexValid(IndexState(Leaf(LeafRec(page, [])), page + 1), 0)
    ensures SameKeys(IndexState(Leaf(LeafRec(page, [])), page + 1), {})
  {
    RankBound([], BRANCH_KEY_MAX);
    assert Rows([LeafRec(page, [])]) == [] + Rows([]);
    assert Sum([]) == 0;
  }

  /** Index entries are small enough for every split at half the count. */
  lemma AddNeverBreaks(s: IndexState, key: seq<Byte>, h: nat)
    requires IndexValid(s, h) && KeyOk(key) && key !in Keys(TreeRows(s.t))
    ensures RootInsert(s.t, KeyEntry(key), INDEX_BRANCH_KEYS, s.next).Fit?
    ensures TreeRows(RootInsert(s.t, KeyEntry(key), INDEX_BRANCH_KEYS, s.next).t) == Insert(TreeRows(s.t), KeyEntry(key))
  {
    var e, rows := KeyEntry(key), TreeRows(s.t);
    var o := TreeInsert(s.t, e, INDEX_BRANCH_KEYS, s.next);
    FringeSorted(s.t, h, 0, RANKS, INDEX_BRANCH_KEYS, 1);
    KeyFound(rows, key);
    InsertRefines(s.t, e, s.next, h, 0, RANKS, INDEX_BRANCH_KEYS, 1);
    SmallNeverOverruns(s.t, e, s.next, h, 0, RANKS, INDEX_BRANCH_KEYS, 1);
    RootInsertFringe(o);
  }

  lemma AddKeepsValid(s: IndexState, key: seq<Byte>, h: nat) returns (h': nat)
    requires IndexValid(s, h) && KeyOk(key) && key !in Keys(TreeRows(s.t)) && Apply(s, Add(key)).1 == Added
    ensures IndexValid(Apply(s, Add(key)).0, h')
  {
    var e := KeyEntry(key);
    AddNeverBreaks(s, key, h);
    var o := RootInsert(s.t, e, INDEX_BRANCH_KEYS, s.next);
    h' := if TreeInsert(s.t, e, INDEX_BRANCH_KEYS, s.next).Split? then h + 1 else h;
    RootInsertWf(s.t, e, s.next, h, RANKS, INDEX_BRANCH_KEYS);
    WfShaped(o.t, h', 0, RANKS, INDEX_BRANCH_KEYS, 1);
    KeyOfEntry(key);
    AddConserves(s, e, h, 0);
    forall q ensures Uses(o.t, q) <= OneIn(q, 1, o.next) {
      AddConserves(s, e, h, q);
      assert Uses(s.t, q) <= OneIn(q, 1, s.next);
    }
  }

  lemma AddConserves(s: IndexState, e: Entry, h: nat, q: nat)
    requires IndexValid(s, h) && |e.data| <= MAX_SINGLE_ROW
    ensures Conserves(RootInsert(s.t, e, INDEX_BRANCH_KEYS, s.next), Uses(s.t, q), s.next, h + 1, q)
  {
    InsertConservesPages(s.t, e, s.next, h, 0, RANKS, INDEX_BRANCH_KEYS, 1, q);
    GrowRootUses(TreeInsert(s.t, e, INDEX_BRANCH_KEYS, s.next), Uses(s.t, q), s.next, h, q);
  }

  lemma AddKeys(rows: seq<Entry>, key: seq<Byte>, other: seq<Byte>)
    requires Sorted(rows) && KeyOk(key)
    ensures other in Keys(Insert(rows, KeyEntry(key))) <==> other == key || other in Keys(rows)
  {
    var pos := LowerBound(rows, Rank(key));
    var all := Insert(rows, KeyEntry(key));
    KeyOfEntry(key);
    assert Keys(all) == Keys(rows)[..pos] + [key] + Keys(rows)[pos..];
    assert Keys(rows) == Keys(rows)[..pos] + Keys(rows)[pos..];
  }

  lemma TakeKeys(rows: seq<Entry>, key: seq<Byte>, other: seq<Byte>)
    requires Sorted(rows) && Coded(rows) && KeyOk(key)
    ensures other in Keys(Remove(rows, Rank(key))) <==> other != key && other in Keys(rows)
  {
    KeyFound(rows, key);
    SortedKeys(rows);
    if Contains(rows, Rank(key)) {
      var pos, ks := LowerBound(rows, Rank(key)), Keys(rows);
      var e := rows[pos];
      assert e in rows;
      RankOrder(KeyOf(e), key, BRANCH_KEY_MAX);
      assert Keys(Remove(rows, Rank(key))) == ks[..pos] + ks[pos + 1..];
      LexIrreflexive(key);
      assert key !in ks[..pos] && key !in ks[pos + 1..];
      assert ks == ks[..pos] + [key] + ks[pos + 1..];
    }
  }

  /** One operation on the tree does what it does on the set. */
  lemma ApplyRefines(s: IndexState, op: IndexOp, h: nat, m: set<seq<Byte>>) returns (h': nat)
    requires IndexValid(s, h) && SameKeys(s, m) && OpKeyOk(op) && (op.Add? ==> op.key !in m)
    ensures var (s', a) := Apply(s, op);
            a != FileFull ==> IndexValid(s', h') && a == ApplySet(m, op).1 && SameKeys(s', ApplySet(m, op).0)
  {
    h' := h;
    var rows := TreeRows(s.t);
    FringeSorted(s.t, h, 0, RANKS, INDEX_BRANCH_KEYS, 1);
    match op
    case Add(key) =>
      AddNeverBreaks(s, key, h);
      if Apply(s, op).1 == Added { h' := AddKeepsValid(s, key, h); }
      forall other ensures other in Keys(Insert(rows, KeyEntry(key))) <==> other == key || other in Keys(rows) {
        AddKeys(rows, key, other);
      }
    case Take(key) =>
      TakeStep(s, key, h);
      forall other ensures other in Keys(Remove(rows, Rank(key))) <==> other != key && other in Keys(rows) {
        TakeKeys(rows, key, other);
      }
    case Has(key) =>
      RankBound(key, BRANCH_KEY_MAX);
      SearchRefines(s.t, Rank(key), h, 0, RANKS, INDEX_BRANCH_KEYS, 1);
      KeyFound(rows, key);
    case OtherPages(n) =>
      forall q ensures Uses(s.t, q) <= OneIn(q, 1, s.next + n) {
        assert Uses(s.t, q) <= OneIn(q, 1, s.next);
      }
  }

  lemma TakeStep(s: IndexState, key: seq<Byte>, h: nat)
    requires IndexValid(s, h) && KeyOk(key)
    ensures IndexValid(s.(t := TreeDelete(s.t, Rank(key))), h)
    ensures TreeRows(TreeDelete(s.t, Rank(key))) == Remove(TreeRows(s.t), Rank(key))
    ensures TreeSearch(s.t, Rank(key)).Found? <==> key in Keys(TreeRows(s.t))
  {
    var id := Rank(key);
    RankBound(key, BRANCH_KEY_MAX);
    FringeSorted(s.t, h, 0, RANKS, INDEX_BRANCH_KEYS, 1);
    TreeDeleteWf(s.t, id, h, 0, RANKS, INDEX_BRANCH_KEYS, 1);
    WfShaped(TreeDelete(s.t, id), h, 0, RANKS, INDEX_BRANCH_KEYS, 1);
    DeleteRefines(s.t, id, h, 0, RANKS, INDEX_BRANCH_KEYS, 1);
    SearchRefines(s.t, id, h, 0, RANKS, INDEX_BRANCH_KEYS, 1);
    KeyFound(TreeRows(s.t), key);
    forall q ensures Uses(TreeDelete(s.t, id), q) <= OneIn(q, 1, s.next) {
      DeleteKeepsPages(s.t, id, q);
      assert Uses(s.t, q) <= OneIn(q, 1, s.next);
    }
  }

  datatype IndexRun = IndexRun(s: IndexState, answers: seq<IndexAnswer>, full: bool)

  /** A run ends early only when the file has no page left. */
  ghost function ApplyAll(s: IndexState, ops: seq<IndexOp>): IndexRun
    requires forall op :: op in ops ==> OpKeyOk(op)
    decreases |ops|
  {
    if ops == [] || !Shaped(s.t) then IndexRun(s, [], false)
    else
      var (s1, a) := Apply(s, ops[0]);
      if a == FileFull then IndexRun(s, [], true)
      else
        var r := ApplyAll(s1, ops[1..]);
        r.(answers := [a] + r.answers)
  }

  function ApplyAllSet(m: set<seq<Byte>>, ops: seq<IndexOp>): (set<seq<Byte>>, seq<IndexAnswer>)
    decreases |ops|
  {
    if ops == [] then (m, [])
    else
      var (m1, a) := ApplySet(m, ops[0]);
      var (m2, answers) := ApplyAllSet(m1, ops[1..]);
      (m2, [a] + answers)
  }

  /** Keys end in the rowid, so a key is only added while it is absent. */
  predicate FreshAdds(m: set<seq<Byte>>, ops: seq<IndexOp>)
    decreases |ops|
  {
    ops == [] || ((ops[0].Add? ==> ops[0].key !in m) && FreshAdds(ApplySet(m, ops[0]).0, ops[1..]))
  }

  /**
   * Every run of fresh insertions, deletions and lookups answers as a set of keys would,
   * until the file is full if it ever is, and leaves a well-formed tree at most 6 branch
   * levels deep that lists exactly the set in byte order.
   */
  lemma {:induction false} IndexRunRefinesSet(s: IndexState, ops: seq<IndexOp>, h: nat, m: set<seq<Byte>>) returns (h': nat)
    requires IndexValid(s, h) && SameKeys(s, m) && FreshAdds(m, ops)
    requires forall op :: op in ops ==> OpKeyOk(op)
    ensures var r := ApplyAll(s, ops); var n := |r.answers|;
            && IndexValid(r.s, h') && h' <= 6 && KeysSorted(Keys(TreeRows(r.s.t)))
            && n <= |ops| && (r.full <==> n < |ops|)
            && r.answers == ApplyAllSet(m, ops[..n]).1
            && SameKeys(r.s, ApplyAllSet(m, ops[..n]).0)
    decreases |ops|
  {
    if ops == [] {
      IndexListed(s, h);
      h' := h;
    } else {
      var (s1, a) := Apply(s, ops[0]);
      if a == FileFull {
        IndexListed(s, h);
        h' := h;
        assert ops[..0] == [];
      } else {
        var h1 := ApplyRefines(s, ops[0], h, m);
        h' := IndexRunRefinesSet(s1, ops[1..], h1, ApplySet(m, ops[0]).0);
        var r := ApplyAll(s1, ops[1..]);
        assert ops[..|r.answers| + 1][1..] == ops[1..][..|r.answers|];
      }
    }
  }

  lemma IndexListed(s: IndexState, h: nat)
    requires IndexValid(s, h)
    ensures h <= 6 && KeysSorted(Keys(TreeRows(s.t)))
  {
    DepthBound(s.t, h, RANKS, INDEX_BRANCH_KEYS, s.next);
    FringeSorted(s.t, h, 0, RANKS, INDEX_BRANCH_KEYS, 1);
    SortedKeys(TreeRows(s.t));
  }
}
