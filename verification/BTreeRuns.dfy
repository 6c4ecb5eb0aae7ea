/** Whole runs of inserts, deletes and lookups: the tree behaves as a finite map. */
module BTreeRuns {
  import opened Seqs
  import opened Bytes
  import opened Overflow
  import opened LeafSplit
  import opened BTree
  import opened BTreeShape
  import opened BTreeLeaves
  import opened BTreePages

  /** Rowids lie below the largest 64-bit number, page numbers are 32-bit. */
  const MAX_ID := 0xFFFF_FFFF_FFFF_FFFF
  const MAX_PAGES := 0x1_0000_0000

  /** A table tree, the next free page number, and the overflow pages in the file. */
  datatype State = State(t: Tree, next: nat, over: map<nat, OverPage>)

  datatype Answer =
    | Inserted | DuplicateKey | PageOverrun | PageCountOverflow
    | Deleted(existed: bool) | Got(found: Found) | Unreadable | Ready

  datatype Op =
    | Put(e: Entry) | Drop(id: nat) | Get(id: nat)
    | Elsewhere(pages: nat)  // other trees in the file allocate pages

  function Create(next: nat): State {
    State(Leaf(LeafRec(next, [])), next + 1, map[])
  }

  /** The overflow pages a row adds. */
  function RowChain(e: Entry, next: nat): map<nat, OverPage> {
    if |e.data| > MAX_SINGLE_ROW then Chain(e.data[INLINE_DATA_LEN..], next) else map[]
  }

  /** Where the page numbers run to. A leaf split takes its new page before it writes the halves. */
  function PagesEnd(o: Outcome, e: Entry, next: nat): nat {
    match o
    case Fit(_, n) => n
    case Split(_, _, _, n) => n
    case Duplicate => next
    case Overrun => next + OverflowCount(e) + 1
  }

  /** After `PageOverrun` a page is damaged or the program has stopped: the state is then only the last one known. */
  function DoInsert(s: State, e: Entry): (State, Answer)
    requires Shaped(s.t)
  {
    var o := RootInsert(s.t, e, ROW_BRANCH_KEYS, s.next);
    if o.Duplicate? then (s, DuplicateKey)
    else if PagesEnd(o, e, s.next) > MAX_PAGES then (s, PageCountOverflow)
    else
      match o
      case Fit(t, n) => (State(t, n, s.over + RowChain(e, s.next)), Inserted)
      case _ => (s, PageOverrun)
  }

  function Lookup(rows: seq<Entry>, over: map<nat, OverPage>, id: nat): Answer {
    match RowsSearch(rows, id)
    case NotFound => Got(NotFound)
    case Found(raw) =>
      match Reassemble(raw, over)
      case Row(bytes) => Got(Found(bytes))
      case Failed(_) => Unreadable
  }

  function DoSearch(s: State, id: nat): Answer
    requires Shaped(s.t)
  {
    match TreeSearch(s.t, id)
    case NotFound => Got(NotFound)
    case Found(raw) =>
      match Reassemble(raw, s.over)
      case Row(bytes) => Got(Found(bytes))
      case Failed(_) => Unreadable
  }

  function Step(s: State, op: Op): (State, Answer)
    requires Shaped(s.t)
  {
    match op
    case Put(e) => DoInsert(s, e)
    case Drop(id) => (s.(t := TreeDelete(s.t, id)), Deleted(TreeSearch(s.t, id).Found?))
    case Get(id) => (s, DoSearch(s, id))
    case Elsewhere(n) => if s.next + n > MAX_PAGES then (s, PageCountOverflow) else (s.(next := s.next + n), Ready)
  }

  /** The same step on a finite map. */
  function MapStep(m: map<nat, seq<Byte>>, op: Op): (map<nat, seq<Byte>>, Answer) {
    match op
    case Put(e) => if e.id in m then (m, DuplicateKey) else (m[e.id := e.data], Inserted)
    case Drop(id) => (m - {id}, Deleted(id in m))
    case Get(id) => (m, Got(if id in m then Found(m[id]) else NotFound))
    case Elsewhere(_) => (m, Ready)
  }

  predicate Stops(a: Answer) {
    a.PageOverrun? || a.PageCountOverflow?
  }

  // ----- what a reachable state looks like -----

  ghost predicate Readable(rows: seq<Entry>, over: map<nat, OverPage>) {
    forall i :: 0 <= i < |rows| ==> Reassemble(rows[i].data, over).Row?
  }

  /** The program finds a row's id in its first 8 bytes. */
  predicate Keyed(e: Entry) {
    |e.data| >= 8 && FromLe(e.data[..8]) == e.id
  }

  ghost predicate AllKeyed(rows: seq<Entry>) {
    forall e :: e in rows ==> Keyed(e)
  }

  ghost predicate Valid(s: State, h: nat) {
    && Shaped(s.t) && Wf(s.t, h, 0, MAX_ID, ROW_BRANCH_KEYS, 1)
    && 1 <= s.next <= MAX_PAGES && Owned(s.t, s.next)
    && (forall p :: p in s.over ==> 0 < p < s.next)
    && Readable(TreeRows(s.t), s.over) && AllKeyed(TreeRows(s.t))
  }

  /** The tree and the map hold the same rows. */
  ghost predicate Agrees(s: State, m: map<nat, seq<Byte>>) {
    forall id: nat | id < MAX_ID ::
      Lookup(TreeRows(s.t), s.over, id) == Expect(m, id)
  }

  /** A row the store accepts: a short row must not look as if it had an overflow trailer. */
  predicate RowOk(e: Entry) {
    && e.id < MAX_ID && Keyed(e)
    && |e.data| <= MAX_REASSEMBLE_SIZE
    && (|e.data| <= MAX_SINGLE_ROW ==> !HasOverflow(e.data))
  }

  predicate OpOk(op: Op) {
    match op
    case Put(e) => RowOk(e)
    case Drop(id) => id < MAX_ID
    case Get(id) => id < MAX_ID
    case Elsewhere(_) => true
  }

  lemma CreateValid(next: nat)
    requires 1 <= next < MAX_PAGES
    ensures Valid(Create(next), 0) && Agrees(Create(next), map[])
  {
    assert Rows([LeafRec(next, [])]) == [] + Rows([]);
    assert Sum([]) == 0;
  }

  // ----- one step -----

  lemma SearchFront(x: seq<Entry>, after: seq<Entry>, id: nat)
    requires forall e :: e in after ==> e.id > id
    ensures RowsSearch(x + after, id) == RowsSearch(x, id)
  {
    PositionLocal([], x, after, id);
    assert [] + x + after == x + after;
  }

  lemma SearchBack(before: seq<Entry>, x: seq<Entry>, id: nat)
    requires forall e :: e in before ==> e.id < id
    ensures RowsSearch(before + x, id) == RowsSearch(x, id)
  {
    PositionLocal(before, x, [], id);
    assert before + x + [] == before + x;
  }

  /** Whatever sits between strictly lower and strictly higher rows, other ids do not see it. */
  lemma SearchBeside(a: seq<Entry>, m: seq<Entry>, b: seq<Entry>, mid: nat, id: nat)
    requires Surrounds(a, b, mid) && forall e :: e in m ==> e.id == mid
    ensures RowsSearch(a + m + b, id) == if id == mid then RowsSearch(m, id) else RowsSearch(a + b, id)
  {
    if id == mid {
      PositionLocal(a, m, b, id);
    } else if id < mid {
      SearchFront(a, m + b, id);
      SearchFront(a, b, id);
      assert a + (m + b) == a + m + b;
    } else {
      SearchBack(a + m, b, id);
      SearchBack(a, b, id);
    }
  }

  lemma SortedCut(rows: seq<Entry>, id: nat)
    requires Sorted(rows)
    ensures var pos := LowerBound(rows, id);
            && rows == rows[..pos] + rows[pos..]
            && (!Contains(rows, id) ==> Surrounds(rows[..pos], rows[pos..], id))
            && (Contains(rows, id) ==>
                 rows == rows[..pos] + [rows[pos]] + rows[pos + 1..] && Surrounds(rows[..pos], rows[pos + 1..], id))
  {
    var pos := LowerBound(rows, id);
    CutAt(rows, pos);
    if Contains(rows, id) {
      CutAround(rows, pos);
      SurroundsAt(rows, id, pos, pos + 1);
    } else {
      if pos < |rows| { assert rows[pos].id > id; }
      SurroundsAt(rows, id, pos, pos);
    }
  }

  lemma SurroundsAt(rows: seq<Entry>, id: nat, p: nat, q: nat)
    requires p <= |rows| && q <= |rows|
    requires (forall i :: 0 <= i < p ==> rows[i].id < id) && (forall i :: q <= i < |rows| ==> rows[i].id > id)
    ensures Surrounds(rows[..p], rows[q..], id)
  {
  }

  lemma SearchAfterInsert(rows: seq<Entry>, e: Entry, id: nat)
    requires Sorted(rows) && !Contains(rows, e.id)
    ensures RowsSearch(Insert(rows, e), id) == if id == e.id then Found(e.data) else RowsSearch(rows, id)
  {
    var pos := LowerBound(rows, e.id);
    SortedCut(rows, e.id);
    SearchBeside(rows[..pos], [e], rows[pos..], e.id, id);
  }

  lemma SearchAfterRemove(rows: seq<Entry>, gone: nat, id: nat)
    requires Sorted(rows)
    ensures RowsSearch(Remove(rows, gone), id) == if id == gone then NotFound else RowsSearch(rows, id)
  {
    if Contains(rows, gone) {
      var pos := LowerBound(rows, gone);
      SortedCut(rows, gone);
      SearchBeside(rows[..pos], [rows[pos]], rows[pos + 1..], gone, id);
      SearchBeside(rows[..pos], [], rows[pos + 1..], gone, id);
      NothingBetween(rows[..pos], rows[pos + 1..]);
    }
  }

  /** The stored form of a row reads back as the row. */
  lemma StoredReads(e: Entry, next: nat, over: map<nat, OverPage>)
    requires RowOk(e) && next > 0 && next + OverflowCount(e) <= MAX_PAGES
    requires forall p :: p in over ==> p < next
    ensures Reassemble(StoredForm(e, next).data, over + RowChain(e, next)) == Row(e.data)
    ensures forall p :: p in over ==> p in over + RowChain(e, next) && (over + RowChain(e, next))[p] == over[p]
    ensures forall p :: p in over + RowChain(e, next) ==> p < next + OverflowCount(e) && (p in over || next <= p)
  {
    if |e.data| > MAX_SINGLE_ROW {
      PowValues();
      var tail := e.data[INLINE_DATA_LEN..];
      ChainKeys(tail, next);
      OverflowRoundTrip(e.data, next, over + RowChain(e, next));
    }
  }

  /** What a leaf keeps of a row begins with the same id. */
  lemma StoredKeyed(e: Entry, next: nat)
    requires Keyed(e)
    ensures Keyed(StoredForm(e, next))
  {
    if |e.data| > MAX_SINGLE_ROW { assert Inline(e.data, next)[..8] == e.data[..8]; }
  }

  lemma InsertKeepsShape(s: State, e: Entry, h: nat) returns (h': nat)
    requires Valid(s, h) && RowOk(e) && DoInsert(s, e).1.Inserted?
    ensures var t := DoInsert(s, e).0.t;
            && Shaped(t) && Wf(t, h', 0, MAX_ID, ROW_BRANCH_KEYS, 1) && Owned(t, DoInsert(s, e).0.next)
            && s.next + OverflowCount(e) <= DoInsert(s, e).0.next
  {
    var o := RootInsert(s.t, e, ROW_BRANCH_KEYS, s.next);
    h' := if TreeInsert(s.t, e, ROW_BRANCH_KEYS, s.next).Split? then h + 1 else h;
    RootInsertWf(s.t, e, s.next, h, MAX_ID, ROW_BRANCH_KEYS);
    WfShaped(o.t, h', 0, MAX_ID, ROW_BRANCH_KEYS, 1);
    InsertConservesPages(s.t, e, s.next, h, 0, MAX_ID, ROW_BRANCH_KEYS, 1, 0);
    GrowRootUses(TreeInsert(s.t, e, ROW_BRANCH_KEYS, s.next), Uses(s.t, 0), s.next + OverflowCount(e), h, 0);
    forall q ensures Uses(o.t, q) <= OneIn(q, 1, o.next) {
      InsertConservesPages(s.t, e, s.next, h, 0, MAX_ID, ROW_BRANCH_KEYS, 1, q);
      GrowRootUses(TreeInsert(s.t, e, ROW_BRANCH_KEYS, s.next), Uses(s.t, q), s.next + OverflowCount(e), h, q);
      assert Uses(s.t, q) <= OneIn(q, 1, s.next);
    }
  }

  lemma InsertRows(s: State, e: Entry, h: nat)
    requires Valid(s, h) && e.id < MAX_ID
    ensures RootInsert(s.t, e, ROW_BRANCH_KEYS, s.next).Duplicate? <==> Contains(TreeRows(s.t), e.id)
    ensures DoInsert(s, e).1.Inserted? ==>
      TreeRows(DoInsert(s, e).0.t) == Insert(TreeRows(s.t), StoredForm(e, s.next))
  {
    var o := TreeInsert(s.t, e, ROW_BRANCH_KEYS, s.next);
    InsertRefines(s.t, e, s.next, h, 0, MAX_ID, ROW_BRANCH_KEYS, 1);
    RootInsertFringe(o);
  }

  /** Looking up any id in the old rows is unaffected by new overflow pages. */
  lemma LookupMonotone(rows: seq<Entry>, over: map<nat, OverPage>, more: map<nat, OverPage>, id: nat)
    requires Readable(rows, over)
    requires forall p :: p in over ==> p in more && more[p] == over[p]
    ensures Lookup(rows, more, id) == Lookup(rows, over, id)
  {
    if Contains(rows, id) {
      ReassembleMonotone(rows[LowerBound(rows, id)].data, over, more);
    }
  }

  lemma InsertReadable(rows: seq<Entry>, e: Entry, over: map<nat, OverPage>, more: map<nat, OverPage>)
    requires Readable(rows, over) && Reassemble(e.data, more).Row?
    requires forall p :: p in over ==> p in more && more[p] == over[p]
    ensures Readable(Insert(rows, e), more)
  {
    forall i | 0 <= i < |rows| ensures Reassemble(rows[i].data, more).Row? {
      ReassembleMonotone(rows[i].data, over, more);
    }
  }

  ghost function Expect(m: map<nat, seq<Byte>>, id: nat): Answer {
    Got(if id in m then Found(m[id]) else NotFound)
  }

  /** Rows and overflow pages after an insertion, on the level of row lists. */
  lemma PutAgrees(rows: seq<Entry>, stored: Entry, data: seq<Byte>, over: map<nat, OverPage>, more: map<nat, OverPage>, id: nat)
    requires Sorted(rows) && Readable(rows, over) && !Contains(rows, stored.id)
    requires forall p :: p in over ==> p in more && more[p] == over[p]
    requires Reassemble(stored.data, more) == Row(data)
    ensures Lookup(Insert(rows, stored), more, id) ==
      if id == stored.id then Got(Found(data)) else Lookup(rows, over, id)
  {
    SearchAfterInsert(rows, stored, id);
    LookupMonotone(rows, over, more, id);
  }

  lemma PutStep(s: State, e: Entry, h: nat, m: map<nat, seq<Byte>>) returns (h': nat)
    requires Valid(s, h) && Agrees(s, m) && RowOk(e) && DoInsert(s, e).1.Inserted?
    ensures var s' := DoInsert(s, e).0;
            e.id !in m && Valid(s', h') && Agrees(s', m[e.id := e.data])
  {
    var rows, stored := TreeRows(s.t), StoredForm(e, s.next);
    var s' := DoInsert(s, e).0;
    FringeSorted(s.t, h, 0, MAX_ID, ROW_BRANCH_KEYS, 1);
    InsertRows(s, e, h);
    assert Lookup(rows, s.over, e.id) == Expect(m, e.id);
    h' := InsertKeepsShape(s, e, h);
    StoredReads(e, s.next, s.over);
    StoredKeyed(e, s.next);
    InsertReadable(rows, stored, s.over, s'.over);
    forall id: nat | id < MAX_ID
      ensures Lookup(TreeRows(s'.t), s'.over, id) == Expect(m[e.id := e.data], id)
    {
      PutAgrees(rows, stored, e.data, s.over, s'.over, id);
      assert Lookup(rows, s.over, id) == Expect(m, id);
    }
  }

  /** A refused insertion was of an id already present. */
  lemma PutRefused(s: State, e: Entry, h: nat, m: map<nat, seq<Byte>>)
    requires Valid(s, h) && Agrees(s, m) && RowOk(e) && DoInsert(s, e).1.DuplicateKey?
    ensures e.id in m
  {
    InsertRows(s, e, h);
    assert Lookup(TreeRows(s.t), s.over, e.id) == Expect(m, e.id);
  }

  lemma DropValid(s: State, id: nat, h: nat)
    requires Valid(s, h) && id < MAX_ID
    ensures Valid(s.(t := TreeDelete(s.t, id)), h)
  {
    var t' := TreeDelete(s.t, id);
    TreeDeleteWf(s.t, id, h, 0, MAX_ID, ROW_BRANCH_KEYS, 1);
    WfShaped(t', h, 0, MAX_ID, ROW_BRANCH_KEYS, 1);
    DeleteRefines(s.t, id, h, 0, MAX_ID, ROW_BRANCH_KEYS, 1);
    forall q ensures Uses(t', q) <= OneIn(q, 1, s.next) {
      DeleteKeepsPages(s.t, id, q);
      assert Uses(s.t, q) <= OneIn(q, 1, s.next);
    }
  }

  lemma DropStep(s: State, id: nat, h: nat, m: map<nat, seq<Byte>>)
    requires Valid(s, h) && Agrees(s, m) && id < MAX_ID
    ensures TreeSearch(s.t, id).Found? <==> id in m
    ensures Agrees(s.(t := TreeDelete(s.t, id)), m - {id})
  {
    var rows := TreeRows(s.t);
    FringeSorted(s.t, h, 0, MAX_ID, ROW_BRANCH_KEYS, 1);
    DeleteRefines(s.t, id, h, 0, MAX_ID, ROW_BRANCH_KEYS, 1);
    SearchRefines(s.t, id, h, 0, MAX_ID, ROW_BRANCH_KEYS, 1);
    assert Lookup(rows, s.over, id) == Expect(m, id);
    forall k: nat | k < MAX_ID
      ensures Lookup(Remove(rows, id), s.over, k) == Expect(m - {id}, k)
    {
      SearchAfterRemove(rows, id, k);
      assert Lookup(rows, s.over, k) == Expect(m, k);
    }
  }

  /** One operation that does not stop answers and acts as it would on the map. */
  lemma StepRefines(s: State, op: Op, h: nat, m: map<nat, seq<Byte>>) returns (h': nat)
    requires Valid(s, h) && Agrees(s, m) && OpOk(op) && !Stops(Step(s, op).1)
    ensures var (s', a) := Step(s, op); var (m', b) := MapStep(m, op);
            Valid(s', h') && a == b && Agrees(s', m')
  {
    h' := h;
    match op
    case Put(e) => if DoInsert(s, e).1.Inserted? { h' := PutStep(s, e, h, m); } else { PutRefused(s, e, h, m); }
    case Drop(id) => DropValid(s, id, h); DropStep(s, id, h, m);
    case Get(id) =>
      SearchRefines(s.t, id, h, 0, MAX_ID, ROW_BRANCH_KEYS, 1);
      assert Lookup(TreeRows(s.t), s.over, id) == Got(if id in m then Found(m[id]) else NotFound);
    case Elsewhere(n) =>
      forall q ensures Uses(s.t, q) <= OneIn(q, 1, s.next + n) {
        assert Uses(s.t, q) <= OneIn(q, 1, s.next);
      }
  }

  // ----- whole runs -----

  /** What a run leaves and answers; `stopped` when an operation could not be carried out. */
  datatype Run = Run(s: State, answers: seq<Answer>, stopped: bool)

  ghost function Execute(s: State, ops: seq<Op>): Run
    decreases |ops|
  {
    if ops == [] || !Shaped(s.t) then Run(s, [], false)
    else
      var (s1, a) := Step(s, ops[0]);
      if Stops(a) then Run(s, [a], true)
      else
        var r := Execute(s1, ops[1..]);
        r.(answers := [a] + r.answers)
  }

  function MapExecute(m: map<nat, seq<Byte>>, ops: seq<Op>): (map<nat, seq<Byte>>, seq<Answer>)
    decreases |ops|
  {
    if ops == [] then (m, [])
    else
      var (m1, a) := MapStep(m, ops[0]);
      var (m2, answers) := MapExecute(m1, ops[1..]);
      (m2, [a] + answers)
  }

  /**
   * The run answered as the map and left a well-formed tree of bounded depth with its rows; if it
   * stopped, so it did up to there. After a page overrun nothing is said of what is left.
   */
  ghost predicate Refines(r: Run, m: map<nat, seq<Byte>>, ops: seq<Op>, h: nat) {
    if !r.stopped then
      Valid(r.s, h) && h <= 5 && r.answers == MapExecute(m, ops).1 && Agrees(r.s, MapExecute(m, ops).0)
    else
      var n := |r.answers| - 1;
      && 0 <= n < |ops| && r.answers[..n] == MapExecute(m, ops[..n]).1 && Stops(r.answers[n])
      && (r.answers[n].PageCountOverflow? ==> Valid(r.s, h) && h <= 5 && Agrees(r.s, MapExecute(m, ops[..n]).0))
  }

  /** One answer in front of a run that refines the rest. */
  lemma RefinesOneMore(a: Answer, r: Run, m: map<nat, seq<Byte>>, ops: seq<Op>, h: nat)
    requires ops != [] && a == MapStep(m, ops[0]).1 && Refines(r, MapStep(m, ops[0]).0, ops[1..], h)
    ensures Refines(Run(r.s, [a] + r.answers, r.stopped), m, ops, h)
  {
    if r.stopped {
      var n := |r.answers| - 1;
      assert ops[..n + 1][1..] == ops[1..][..n];
      assert ([a] + r.answers)[..n + 1] == [a] + r.answers[..n];
    }
  }

  /**
   * Every run answers exactly as a finite map would, up to the operation that stops it if
   * any does, and leaves a well-formed tree of bounded depth holding exactly the map. After
   * a page overrun nothing is said of what is left.
   */
  lemma {:induction false} RunRefinesMap(s: State, ops: seq<Op>, h: nat, m: map<nat, seq<Byte>>) returns (h': nat)
    requires Valid(s, h) && Agrees(s, m) && forall op :: op in ops ==> OpOk(op)
    ensures Refines(Execute(s, ops), m, ops, h')
    decreases |ops|
  {
    DepthBound(s.t, h, MAX_ID, ROW_BRANCH_KEYS, s.next);
    h' := h;
    if ops != [] {
      var (s1, a) := Step(s, ops[0]);
      if !Stops(a) {
        var h1 := StepRefines(s, ops[0], h, m);
        h' := RunRefinesMap(s1, ops[1..], h1, MapStep(m, ops[0]).0);
        RefinesOneMore(a, Execute(s1, ops[1..]), m, ops, h');
      } else {
        assert [a][..0] == [] && ops[..0] == [];
      }
    }
  }
}
