/**
 * Interactive transactions over private overlays, the write gate, and whole runs of
 * interleaved tasks: the committed state is that of the committed writes run serially.
 */
module Gate {
  import opened Seqs
  import opened Store

  /** What a table keeps outside its pages. */
  datatype Meta = Meta(root: nat, rowCount: int, nextRowid: nat, indexRoots: map<string, nat>)
  datatype Db = Db(pages: map<nat, Page>, next: nat, tables: map<string, Meta>)

  /** What a transaction keeps for a table it wrote to: absolute roots, a relative row count. */
  datatype Delta = Delta(root: nat, rowDelta: int, nextRowid: nat, indexRoots: map<string, nat>)
  datatype Tx = Tx(dirty: map<nat, Page>, newPages: nat, deltas: map<string, Delta>)

  const EMPTY := Tx(map[], 0, map[])

  ghost predicate Sane(db: Db) {
    forall p :: p in db.pages <==> 0 <= p < db.next
  }

  // ----- views and commits -----

  /** The roots and counters a transaction works with. */
  function SeenMeta(m: Meta, d: Delta): Meta {
    Meta(d.root, m.rowCount + d.rowDelta, d.nextRowid, Reroot(m.indexRoots, d.indexRoots))
  }

  /** Roots by index name; names the table does not have are ignored. */
  function Reroot(roots: map<string, nat>, over: map<string, nat>): (r: map<string, nat>)
    ensures r.Keys == roots.Keys
  {
    map n | n in roots :: if n in over then over[n] else roots[n]
  }

  /** The database as a transaction sees it. */
  function Seen(db: Db, tx: Tx): Db {
    Db(db.pages + tx.dirty, db.next + tx.newPages,
       map t | t in db.tables :: if t in tx.deltas then SeenMeta(db.tables[t], tx.deltas[t]) else db.tables[t])
  }

  /** Commit: staged pages are published, roots replaced, counts added, rowids never go back. */
  function PublishMeta(m: Meta, d: Delta): Meta {
    Meta(d.root, m.rowCount + d.rowDelta, if d.nextRowid > m.nextRowid then d.nextRowid else m.nextRowid,
         Reroot(m.indexRoots, d.indexRoots))
  }

  function PublishTables(tables: map<string, Meta>, deltas: map<string, Delta>): map<string, Meta> {
    map t | t in tables :: if t in deltas then PublishMeta(tables[t], deltas[t]) else tables[t]
  }

  function Publish(db: Db, tx: Tx): Db {
    if tx.dirty == map[] && tx.deltas == map[] then db
    else Db(db.pages + tx.dirty, db.next + tx.newPages, PublishTables(db.tables, tx.deltas))
  }

  // ----- write operations -----

  /** A write operation as what it makes of the view it runs on. */
  type Work = Db -> Db

  /** `w` only adds pages, keeps the tables and their indexes, and never hands out a rowid again. */
  ghost predicate Grows(v: Db, w: Db) {
    && Sane(w) && v.next <= w.next && w.tables.Keys == v.tables.Keys
    && forall t :: t in v.tables ==>
         v.tables[t].nextRowid <= w.tables[t].nextRowid && w.tables[t].indexRoots.Keys == v.tables[t].indexRoots.Keys
  }

  ghost predicate Proper(w: Work) {
    forall v {:trigger w(v)} :: Sane(v) ==> Grows(v, w(v))
  }

  /** The pages an operation changed or added. */
  function Changed(v: map<nat, Page>, w: map<nat, Page>): map<nat, Page> {
    map p | p in w && (p !in v || v[p] != w[p]) :: w[p]
  }

  function DeltaOf(m: Meta, seen: Meta): Delta {
    Delta(seen.root, seen.rowCount - m.rowCount, seen.nextRowid, seen.indexRoots)
  }

  /** An operation inside a transaction: its changes stay in the overlay. */
  function Stage(db: Db, tx: Tx, w: Work): Tx {
    var v := Seen(db, tx);
    var after := w(v);
    Tx(tx.dirty + Changed(v.pages, after.pages),
       if after.next >= db.next then after.next - db.next else 0,
       map t | t in db.tables && t in after.tables && (t in tx.deltas || after.tables[t] != db.tables[t]) ::
         DeltaOf(db.tables[t], after.tables[t]))
  }

  /** The staged deltas of a transaction over the state it started from. */
  ghost predicate Staged(db: Db, tx: Tx) {
    && Sane(db) && Grows(db, Seen(db, tx))
    && tx.deltas.Keys <= db.tables.Keys
    && (tx.dirty == map[] ==> tx.newPages == 0)
  }

  lemma SeenEmpty(db: Db)
    requires Sane(db)
    ensures Seen(db, EMPTY) == db && Staged(db, EMPTY)
  {
    assert db.pages + EMPTY.dirty == db.pages;
    assert Seen(db, EMPTY).tables == db.tables;
  }

  /** Reading your writes: after an operation the view is what the operation made of it. */
  lemma StageSees(db: Db, tx: Tx, w: Work)
    requires Staged(db, tx) && Proper(w)
    ensures Seen(db, Stage(db, tx, w)) == w(Seen(db, tx)) && Staged(db, Stage(db, tx, w))
  {
    var after := w(Seen(db, tx));
    assert Grows(Seen(db, tx), after) && Grows(db, Seen(db, tx));
    GrowsTwice(db, Seen(db, tx), after);
    StagedPages(db, tx, after, Stage(db, tx, w));
    StagedTables(db, tx, after.tables, Stage(db, tx, w).deltas);
  }

  lemma GrowsTwice(a: Db, b: Db, c: Db)
    requires Grows(a, b) && Grows(b, c)
    ensures Grows(a, c)
  {
  }

  lemma StagedPages(db: Db, tx: Tx, after: Db, t: Tx)
    requires Sane(db) && Sane(after) && db.next <= after.next
    requires forall p :: p in db.pages + tx.dirty ==> p in after.pages
    requires t.dirty == tx.dirty + Changed(db.pages + tx.dirty, after.pages) && t.newPages == after.next - db.next
    ensures Seen(db, t).pages == after.pages && Seen(db, t).next == after.next
    ensures t.dirty == map[] ==> t.newPages == 0
  {
    ChangesRestore(db.pages, tx.dirty, after.pages);
    assert after.next > db.next ==> db.next in after.pages;
  }

  lemma ChangesRestore(base: map<nat, Page>, dirty: map<nat, Page>, after: map<nat, Page>)
    requires forall p :: p in base + dirty ==> p in after
    ensures base + (dirty + Changed(base + dirty, after)) == after
  {
  }

  lemma StagedTables(db: Db, tx: Tx, after: map<string, Meta>, deltas: map<string, Delta>)
    requires after.Keys == db.tables.Keys
    requires forall t :: t in after ==> after[t].indexRoots.Keys == db.tables[t].indexRoots.Keys
    requires deltas == map t | t in db.tables && t in after && (t in tx.deltas || after[t] != db.tables[t]) ::
                         DeltaOf(db.tables[t], after[t])
    ensures (map t | t in db.tables :: if t in deltas then SeenMeta(db.tables[t], deltas[t]) else db.tables[t]) == after
  {
    forall t | t in after && t in deltas ensures SeenMeta(db.tables[t], deltas[t]) == after[t] {
      assert Reroot(db.tables[t].indexRoots, after[t].indexRoots) == after[t].indexRoots;
    }
  }

  /** Committing over the state the transaction started from publishes exactly its view. */
  lemma PublishIsSeen(db: Db, tx: Tx)
    requires Staged(db, tx)
    ensures Publish(db, tx) == Seen(db, tx)
  {
    forall t | t in db.tables && t in tx.deltas
      ensures PublishMeta(db.tables[t], tx.deltas[t]) == SeenMeta(db.tables[t], tx.deltas[t])
    {
      assert Seen(db, tx).tables[t] == SeenMeta(db.tables[t], tx.deltas[t]);
    }
    if tx.dirty == map[] && tx.deltas == map[] { SeenEmpty(db); }
  }

  // ----- tasks, the gate, and runs -----

  /** An open interactive transaction; `gated` once it holds the gate. */
  datatype Task = Task(tx: Tx, gated: bool)
  datatype Sys = Sys(db: Db, gate: Option<nat>, tasks: map<nat, Task>)

  datatype Event =
    | Begin(id: nat)
    | Read(id: nat)
    | Write(id: nat, w: Work)
    | Commit(id: nat)
    | Abandon(id: nat)
    | Single(w: Work)  // a gated call outside any transaction

  /** What can happen next: a writer waits until the gate is free or its own. */
  predicate Enabled(s: Sys, e: Event) {
    match e
    case Begin(id) => id !in s.tasks
    case Read(id) => id in s.tasks
    case Write(id, w) => id in s.tasks && (s.tasks[id].gated || s.gate == None)
    case Commit(id) => id in s.tasks
    case Abandon(id) => id in s.tasks
    case Single(w) => s.gate == None
  }

  /** The gate once a transaction has ended. */
  function Released(s: Sys, id: nat): Option<nat>
    requires id in s.tasks
  {
    if s.tasks[id].gated then None else s.gate
  }

  function Next(s: Sys, e: Event): Sys
    requires Enabled(s, e)
  {
    match e
    case Begin(id) => s.(tasks := s.tasks[id := Task(EMPTY, false)])
    case Read(id) => s
    case Write(id, w) => s.(gate := Some(id), tasks := s.tasks[id := Task(Stage(s.db, s.tasks[id].tx, w), true)])
    case Commit(id) => Sys(Publish(s.db, s.tasks[id].tx), Released(s, id), s.tasks - {id})
    case Abandon(id) => Sys(s.db, Released(s, id), s.tasks - {id})
    case Single(w) => s.(db := Publish(s.db, Stage(s.db, EMPTY, w)))
  }

  ghost predicate Runs(s: Sys, es: seq<Event>)
    decreases |es|
  {
    es == [] || (Enabled(s, es[0]) && Runs(Next(s, es[0]), es[1..]))
  }

  ghost function After(s: Sys, es: seq<Event>): Sys
    requires Runs(s, es)
    decreases |es|
  {
    if es == [] then s else After(Next(s, es[0]), es[1..])
  }

  /** Operations run one after another on the database. */
  function Serial(db: Db, ws: seq<Work>): Db
    decreases |ws|
  {
    if ws == [] then db else Serial(ws[0](db), ws[1..])
  }

  /** The operations of each open transaction so far. */
  type Pending = map<nat, seq<Work>>

  function Step(pending: Pending, e: Event): Pending {
    match e
    case Begin(id) => pending[id := []]
    case Write(id, w) => pending[id := Of(pending, id) + [w]]
    case Commit(id) => pending - {id}
    case Abandon(id) => pending - {id}
    case _ => pending
  }

  function Of(pending: Pending, id: nat): seq<Work> {
    if id in pending then pending[id] else []
  }

  /** The committed operations of a run, transaction by transaction in the order of their commits. */
  function CommitLog(pending: Pending, es: seq<Event>): seq<Work>
    decreases |es|
  {
    if es == [] then []
    else (match es[0] case Commit(id) => Of(pending, id) case Single(w) => [w] case _ => [])
         + CommitLog(Step(pending, es[0]), es[1..])
  }

  // ----- the invariant -----

  /**
   * Only the holder of the gate has anything staged, over the committed state as it is now:
   * its view is that state with its own operations run on it, and the page numbers it has
   * allocated are the ones right after the committed pages.
   */
  ghost predicate Inv(s: Sys, pending: Pending) {
    && Sane(s.db)
    && (forall id: nat :: id in s.tasks <==> id in pending)
    && (forall id: nat :: id in s.tasks ==> (s.tasks[id].gated <==> s.gate == Some(id)))
    && (s.gate.Some? ==> s.gate.value in s.tasks)
    && (forall id: nat :: id in s.tasks && !s.tasks[id].gated ==> s.tasks[id].tx == EMPTY && pending[id] == [])
    && (forall id: nat :: id in s.tasks && s.tasks[id].gated ==> OwnView(s.db, s.tasks[id].tx, pending[id]))
  }

  ghost predicate OwnView(db: Db, tx: Tx, ws: seq<Work>) {
    && Staged(db, tx) && Seen(db, tx) == Serial(db, ws)
    && (forall p :: p in tx.dirty && p !in db.pages <==> db.next <= p < db.next + tx.newPages)
  }

  lemma {:induction false} SerialSplit(db: Db, a: seq<Work>, b: seq<Work>)
    ensures Serial(db, a + b) == Serial(Serial(db, a), b)
    decreases |a|
  {
    if a == [] {
      EmptyFront(a, b);
    } else {
      SerialSplit(a[0](db), a[1..], b);
      TailOfConcat(a, b);
    }
  }

  lemma WriteKeepsView(db: Db, tx: Tx, ws: seq<Work>, w: Work)
    requires OwnView(db, tx, ws) && Proper(w)
    ensures OwnView(db, Stage(db, tx, w), ws + [w])
  {
    StageSees(db, tx, w);
    SerialSplit(db, ws, [w]);
    assert [w][1..] == [];
    NewPagesStaged(db, Stage(db, tx, w));
  }

  /** A sane view has a staged page for every allocated number and no others past the end. */
  lemma NewPagesStaged(db: Db, tx: Tx)
    requires Sane(db) && Sane(Seen(db, tx))
    ensures forall p :: p in tx.dirty && p !in db.pages <==> db.next <= p < db.next + tx.newPages
  {
    forall p ensures p in tx.dirty && p !in db.pages <==> db.next <= p < db.next + tx.newPages {
      assert p in Seen(db, tx).pages <==> p in db.pages || p in tx.dirty;
    }
  }

  lemma EmptyView(db: Db)
    requires Sane(db)
    ensures OwnView(db, EMPTY, [])
  {
    SeenEmpty(db);
  }

  /** One event keeps the invariant and changes the database by exactly what it commits. */
  lemma StepKeeps(s: Sys, pending: Pending, e: Event)
    requires Inv(s, pending) && Enabled(s, e)
    requires (e.Write? ==> Proper(e.w)) && (e.Single? ==> Proper(e.w))
    ensures Inv(Next(s, e), Step(pending, e))
    ensures Next(s, e).db ==
      match e case Commit(id) => Serial(s.db, Of(pending, id)) case Single(w) => w(s.db) case _ => s.db
  {
    match e
    case Write(id, w) => WriteKeeps(s, pending, id, w);
    case Commit(id) => CommitKeeps(s, pending, id);
    case Single(w) => SingleKeeps(s, pending, w);
    case _ =>
  }

  lemma WriteKeeps(s: Sys, pending: Pending, id: nat, w: Work)
    requires Inv(s, pending) && Enabled(s, Write(id, w)) && Proper(w)
    ensures Inv(Next(s, Write(id, w)), Step(pending, Write(id, w)))
  {
    if !s.tasks[id].gated { EmptyView(s.db); }
    WriteKeepsView(s.db, s.tasks[id].tx, pending[id], w);
    HolderKeeps(s, pending, id, Stage(s.db, s.tasks[id].tx, w), pending[id] + [w]);
  }

  lemma HolderKeeps(s: Sys, pending: Pending, id: nat, tx: Tx, ws: seq<Work>)
    requires Inv(s, pending) && id in s.tasks && (s.tasks[id].gated || s.gate == None) && OwnView(s.db, tx, ws)
    ensures Inv(s.(gate := Some(id), tasks := s.tasks[id := Task(tx, true)]), pending[id := ws])
  {
  }

  lemma NobodyStaged(s: Sys, pending: Pending, db: Db)
    requires Inv(s, pending) && s.gate == None && Sane(db)
    ensures Inv(s.(db := db), pending)
  {
  }

  /** Whoever commits without the gate has staged nothing. */
  lemma CommitKeeps(s: Sys, pending: Pending, id: nat)
    requires Inv(s, pending) && id in s.tasks
    ensures Inv(Next(s, Commit(id)), Step(pending, Commit(id)))
    ensures Next(s, Commit(id)).db == Serial(s.db, pending[id])
  {
    EmptyView(s.db);
    PublishIsSeen(s.db, s.tasks[id].tx);
  }

  lemma SingleKeeps(s: Sys, pending: Pending, w: Work)
    requires Inv(s, pending) && s.gate == None && Proper(w)
    ensures Inv(Next(s, Single(w)), pending) && Next(s, Single(w)).db == w(s.db)
  {
    SinglePublishes(s.db, w);
    NobodyStaged(s, pending, w(s.db));
  }

  lemma SinglePublishes(db: Db, w: Work)
    requires Sane(db) && Proper(w)
    ensures Publish(db, Stage(db, EMPTY, w)) == w(db) && Sane(w(db))
  {
    SeenEmpty(db);
    StageSees(db, EMPTY, w);
    PublishIsSeen(db, Stage(db, EMPTY, w));
  }

  ghost predicate AllProper(es: seq<Event>) {
    forall e :: e in es ==> (e.Write? ==> Proper(e.w)) && (e.Single? ==> Proper(e.w))
  }

  /**
   * Whatever the interleaving, the committed database is the committed transactions' writes
   * run one after another in the order of their commits; abandoned ones leave no trace.
   */
  lemma {:induction false} GatedRunsAreSerial(s: Sys, pending: Pending, es: seq<Event>)
    requires Inv(s, pending) && Runs(s, es)
    requires AllProper(es)
    ensures After(s, es).db == Serial(s.db, CommitLog(pending, es))
    ensures exists end: Pending :: Inv(After(s, es), end)
    decreases |es|
  {
    if es != [] {
      var e := es[0];
      assert e in es;
      StepKeeps(s, pending, e);
      GatedRunsAreSerial(Next(s, e), Step(pending, e), es[1..]);
      var now := match e case Commit(id) => Of(pending, id) case Single(w) => [w] case _ => [];
      SerialSplit(s.db, now, CommitLog(Step(pending, e), es[1..]));
    }
  }

  /**
   * At every point of a run page numbers allocated in one overlay are unused in the committed
   * file and in every other overlay: they are the numbers right behind the committed pages.
   */
  lemma NewPagesNeverClash(s: Sys, pending: Pending, es: seq<Event>, i: nat, j: nat, p: nat)
    requires Inv(s, pending) && Runs(s, es)
    requires AllProper(es)
    requires i in After(s, es).tasks && p in After(s, es).tasks[i].tx.dirty
    ensures var now := After(s, es);
            && (p in now.db.pages <==> p < now.db.next)
            && (p !in now.db.pages ==> now.db.next <= p < now.db.next + now.tasks[i].tx.newPages)
            && (j in now.tasks && j != i ==> now.tasks[j].tx == EMPTY)
  {
    GatedRunsAreSerial(s, pending, es);
    var end: Pending :| Inv(After(s, es), end);
    assert After(s, es).tasks[i].tx != EMPTY;
  }

  /** The state every run starts from. */
  lemma StartInv(db: Db)
    requires Sane(db)
    ensures Inv(Sys(db, None, map[]), map[])
  {
  }

  /** Nobody is writing, no transaction is open. */
  ghost predicate Fresh(s: Sys) {
    s.gate == None && s.tasks == map[] && Sane(s.db)
  }

  /** The same from a state with no open transactions. */
  lemma FreshRunIsSerial(s: Sys, es: seq<Event>)
    requires Fresh(s) && Runs(s, es) && AllProper(es)
    ensures After(s, es).db == Serial(s.db, CommitLog(map[], es))
  {
    StartInv(s.db);
    assert s == Sys(s.db, None, map[]);
    GatedRunsAreSerial(s, map[], es);
  }

  // ----- nobody is locked out -----

  /**
   * Who may act in any state a run reaches: a transaction writes exactly when no other holds the
   * gate, it can always end, and its end frees the gate if it held it.
   */
  lemma WhoMayAct(s: Sys, pending: Pending, id: nat, w: Work)
    requires Inv(s, pending)
    ensures Enabled(s, Write(id, w)) <==> id in s.tasks && forall j :: j in s.tasks && j != id ==> !s.tasks[j].gated
    ensures Enabled(s, Single(w)) <==> forall j :: j in s.tasks ==> !s.tasks[j].gated
    ensures Enabled(s, Commit(id)) <==> id in s.tasks
    ensures Enabled(s, Abandon(id)) <==> id in s.tasks
    ensures id in s.tasks ==>
      forall e | e in {Commit(id), Abandon(id)} ::
        Next(s, e).tasks == s.tasks - {id} && Next(s, e).gate == if s.gate == Some(id) then None else s.gate
  {
    if s.gate.Some? { assert s.tasks[s.gate.value].gated; }
  }

  /** The rest of one transaction: its writes, then the commit. */
  function Finish(id: nat, ws: seq<Work>): seq<Event>
    decreases |ws|
  {
    if ws == [] then [Commit(id)] else [Write(id, ws[0])] + Finish(id, ws[1..])
  }

  ghost predicate EndsAs(s: Sys, es: seq<Event>, end: Sys) {
    Runs(s, es) && After(s, es) == end
  }

  lemma EndsBefore(s: Sys, e: Event, es: seq<Event>, end: Sys)
    requires Enabled(s, e) && EndsAs(Next(s, e), es, end)
    ensures EndsAs(s, [e] + es, end)
  {
    assert ([e] + es)[1..] == es;
  }

  /** A writer gets the gate, if it has not got it, and what it has left to do still lies ahead. */
  lemma WriteOn(s: Sys, pending: Pending, id: nat, w: Work) returns (s': Sys, pending': Pending)
    requires Inv(s, pending) && id in s.tasks && (s.gate == None || s.gate == Some(id)) && Proper(w)
    ensures Inv(s', pending') && s'.db == s.db && s'.gate == Some(id)
    ensures id in s'.tasks && s'.tasks - {id} == s.tasks - {id}
    ensures forall rest: seq<Work> :: pending'[id] + rest == pending[id] + ([w] + rest)
    ensures forall es, end :: EndsAs(s', es, end) ==> EndsAs(s, [Write(id, w)] + es, end)
  {
    var e := Write(id, w);
    forall rest: seq<Work> ensures (pending[id] + [w]) + rest == pending[id] + ([w] + rest) { Assoc(pending[id], [w], rest); }
    StepKeeps(s, pending, e);
    s', pending' := Next(s, e), Step(pending, e);
    forall es, end | EndsAs(s', es, end) ensures EndsAs(s, [e] + es, end) { EndsBefore(s, e, es, end); }
  }

  /** A transaction that holds the gate, or finds it free, runs to its end and leaves all its writes. */
  lemma {:induction false} FinishRuns(s: Sys, pending: Pending, id: nat, ws: seq<Work>)
    requires Inv(s, pending) && id in s.tasks && (s.gate == None || s.gate == Some(id)) && forall i :: 0 <= i < |ws| ==> Proper(ws[i])
    ensures EndsAs(s, Finish(id, ws), Sys(Serial(s.db, pending[id] + ws), None, s.tasks - {id}))
    decreases |ws|
  {
    if ws == [] {
      CommitEnds(s, pending, id);
      assert pending[id] + ws == pending[id];
    } else {
      var s', pending' := WriteOn(s, pending, id, ws[0]);
      assert ws == [ws[0]] + ws[1..];
      FinishRuns(s', pending', id, ws[1..]);
    }
  }

  lemma CommitEnds(s: Sys, pending: Pending, id: nat)
    requires Inv(s, pending) && id in s.tasks && (s.gate == None || s.gate == Some(id))
    ensures EndsAs(s, [Commit(id)], Sys(Serial(s.db, pending[id]), None, s.tasks - {id}))
  {
    CommitKeeps(s, pending, id);
    assert EndsAs(Next(s, Commit(id)), [], Next(s, Commit(id)));
    EndsBefore(s, Commit(id), [], Next(s, Commit(id)));
    assert [Commit(id)] + [] == [Commit(id)];
  }

  /** Dropping a transaction changes nothing but its own task and the gate it may hold. */
  lemma AbandonChangesNothing(s: Sys, pending: Pending, id: nat, es: seq<Event>)
    requires Inv(s, pending) && id in s.tasks && Runs(Next(s, Abandon(id)), es)
    requires AllProper(es)
    ensures After(Next(s, Abandon(id)), es).db == Serial(s.db, CommitLog(pending - {id}, es))
  {
    StepKeeps(s, pending, Abandon(id));
    GatedRunsAreSerial(Next(s, Abandon(id)), pending - {id}, es);
  }
}
