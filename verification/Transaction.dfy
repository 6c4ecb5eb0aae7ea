/** The transaction objects: a private overlay run through the shared write guard, and the gate. */
module Transaction {
  import opened Bytes
  import opened Overflow
  import opened LeafSplit
  import opened BTree
  import opened BTreeLeaves
  import opened BTreePages
  import opened BTreeStored
  import opened BTreeRuns
  import W = BTreeWriter
  import G = Gate
  import opened Store

  class Database {
    const file: PageFile
    var tables: map<string, G.Meta>
    /** Who holds the write gate. */
    var gate: Option<nat>

    ghost predicate Valid()
      reads this, file
    {
      file.Valid()
    }

    /** The committed state. */
    ghost function Committed(): G.Db
      reads this, file
    {
      G.Db(file.pages, file.numPages, tables)
    }

    constructor (file: PageFile)
      requires file.Valid()
      ensures Valid() && this.file == file && gate == None && Committed() == G.Db(file.pages, file.numPages, map[])
    {
      this.file, tables, gate := file, map[], None;
    }
  }

  class AcidTransaction {
    const db: Database
    var privateDirty: map<nat, Page>
    var newPageCount: nat
    var deltas: map<string, G.Delta>

    ghost function Overlay(): G.Tx
      reads this
    {
      G.Tx(privateDirty, newPageCount, deltas)
    }

    /** Staged pages lie below the staged end of the file, and every allocated page is staged. */
    ghost predicate Valid()
      reads this, db, db.file
    {
      db.Valid() && Covers(privateDirty, db.file.numPages, NextPage())
    }

    /** What the transaction reads. */
    ghost function View(): G.Db
      reads this, db, db.file
    {
      G.Seen(db.Committed(), Overlay())
    }

    /** The pages it reads, and the number it would allocate next. */
    ghost function Pages(): map<nat, Page>
      reads this, db, db.file
    {
      db.file.pages + privateDirty
    }

    ghost function NextPage(): nat
      reads this, db, db.file
    {
      db.file.numPages + newPageCount
    }

    constructor (db: Database)
      requires db.Valid()
      ensures Valid() && this.db == db && Overlay() == G.EMPTY
    {
      this.db, privateDirty, newPageCount, deltas := db, map[], 0, map[];
    }

    /** Starts an operation: a guard showing the committed pages under the private ones. */
    method OpenGuard() returns (guard: WriteGuard)
      requires Valid()
      modifies this
      ensures fresh(guard) && guard.file == db.file && guard.Valid()
      ensures guard.View() == db.file.pages + old(privateDirty) && guard.dirty == old(privateDirty)
      ensures guard.newPageCount == old(newPageCount) && privateDirty == map[]
      ensures newPageCount == old(newPageCount) && deltas == old(deltas)
    {
      guard := new WriteGuard(db.file);
      var pages := privateDirty;
      privateDirty := map[];
      guard.InjectDirty(pages);
      guard.SetNewPageCount(newPageCount);
    }

    /** Ends it: everything staged goes back into the private overlay, the file is as it was. */
    method CloseGuard(guard: WriteGuard)
      requires guard.file == db.file && guard.Valid() && db.Valid()
      modifies this, guard
      ensures Valid() && privateDirty == old(guard.dirty) && newPageCount == old(guard.newPageCount)
      ensures deltas == old(deltas) && guard.dirty == map[] && guard.newPageCount == 0
    {
      privateDirty := guard.DrainDirty();
      newPageCount := guard.newPageCount;
      guard.SetNewPageCount(0);
      guard.Discard();
    }

    /**
     * From one operation to the next: draining, discarding and injecting again over the same
     * file gives a guard that shows and allocates as the old one did.
     */
    method NextGuard(guard: WriteGuard) returns (again: WriteGuard)
      requires guard.file == db.file && guard.Valid() && db.Valid()
      modifies this, guard
      ensures fresh(again) && again.file == db.file && again.Valid()
      ensures again.View() == old(guard.View()) && again.Next() == old(guard.Next())
      ensures again.dirty == old(guard.dirty) && again.newPageCount == old(guard.newPageCount)
      ensures guard.View() == db.file.pages && guard.Next() == db.file.numPages
    {
      CloseGuard(guard);
      again := OpenGuard();
    }

    method CurrentRoot(table: string) returns (root: nat)
      requires table in db.tables
      ensures root == View().tables[table].root
    {
      root := if table in deltas then deltas[table].root else db.tables[table].root;
    }

    method CurrentNextRowid(table: string) returns (rowid: nat)
      requires table in db.tables
      ensures rowid == View().tables[table].nextRowid
    {
      rowid := if table in deltas then deltas[table].nextRowid else db.tables[table].nextRowid;
    }

    /** Records an insertion into a table without indexes. */
    method RecordInsert(table: string, root: nat, newRoot: nat, rowid: nat)
      requires table in db.tables && rowid == View().tables[table].nextRowid
      modifies this
      ensures privateDirty == old(privateDirty) && newPageCount == old(newPageCount)
      ensures View().pages == old(View().pages) && View().next == old(View().next)
      ensures View().tables == old(View().tables)[table :=
                old(View().tables[table]).(root := newRoot, rowCount := old(View().tables[table].rowCount) + 1, nextRowid := rowid + 1)]
    {
      var delta := if table in deltas then deltas[table] else G.Delta(root, 0, rowid, map[]);
      ghost var m := db.tables[table];
      assert table !in deltas ==> G.Reroot(m.indexRoots, map[]) == m.indexRoots;
      deltas := deltas[table := delta.(root := newRoot, rowDelta := delta.rowDelta + 1, nextRowid := rowid + 1)];
    }

    /** Publishes the overlay: every staged page at once, then the tables' roots and counts. */
    method Commit()
      requires Valid()
      modifies this, db, db.file
      ensures db.gate == old(db.gate)
      ensures old(NextPage()) <= MAX_PAGE_NO ==>
        db.Valid() && db.Committed() == G.Publish(old(db.Committed()), old(Overlay()))
    {
      if privateDirty == map[] && deltas == map[] { return; }
      PublishPages();
      db.tables := G.PublishTables(db.tables, deltas);
    }

    method PublishPages()
      requires Valid()
      modifies this, db.file
      ensures deltas == old(deltas)
      ensures old(NextPage()) <= MAX_PAGE_NO ==>
        db.file.pages == old(Pages()) && db.file.numPages == old(NextPage()) && db.file.Valid()
    {
      var guard := new WriteGuard(db.file);
      guard.InjectDirty(privateDirty);
      guard.SetNewPageCount(newPageCount);
      var images := guard.Commit();
      privateDirty := map[];
    }

    /**
     * Inserting a row inside a transaction: the transaction's own view gets the new tree and
     * the next rowid, the committed state is untouched.
     */
    method Insert(table: string, data: seq<Byte>, ghost t: Tree, ghost h: nat) returns (r: W.InsertResult, rowid: nat)
      requires Valid() && table in db.tables
      requires View().tables[table].root == Root(t) && View().tables[table].nextRowid < MAX_ID
      requires Shaped(t) && Wf(t, h, 0, MAX_ID, ROW_BRANCH_KEYS, 1) && Owned(t, View().next) && View().next > 0
      requires Holds(View().pages, t) && W.Linked(View().pages, LeafPages(Fringe(t)))
      requires View().next <= MAX_PAGES && h < W.MAX_TREE_DEPTH
      modifies this
      ensures Valid() && rowid == old(View().tables[table].nextRowid)
      ensures db.Committed() == old(db.Committed())
      ensures var s := W.Site(Entry(rowid, data), old(View().next), old(View().pages), [], []);
              W.RootTried(s, t, r, RootInsert(t, s.e, ROW_BRANCH_KEYS, s.n), View().pages, View().next,
                          Root(t), if r == W.FitResult then View().tables[table].root else Root(t))
      ensures r != W.FitResult ==> View().tables == old(View().tables)
      ensures r == W.FitResult ==>
                View().tables[table].nextRowid == rowid + 1
                && View().tables[table].rowCount == old(View().tables[table].rowCount) + 1
      ensures forall other :: other in db.tables && other != table ==> View().tables[other] == old(View().tables[other])
    {
      assert View().pages == Pages() && View().next == NextPage();
      var root := CurrentRoot(table);
      rowid := CurrentNextRowid(table);
      var newRoot;
      r, newRoot := InsertRow(root, Entry(rowid, data), t, h);
      if r == W.FitResult {
        RecordInsert(table, root, newRoot, rowid);
      }
    }

    /** The tree insertion, between opening and closing the guard. */
    method InsertRow(root: nat, e: Entry, ghost t: Tree, ghost h: nat) returns (r: W.InsertResult, newRoot: nat)
      requires Valid() && root == Root(t) && e.id < MAX_ID
      requires Shaped(t) && Wf(t, h, 0, MAX_ID, ROW_BRANCH_KEYS, 1) && Owned(t, NextPage()) && NextPage() > 0
      requires Holds(Pages(), t) && W.Linked(Pages(), LeafPages(Fringe(t)))
      requires NextPage() <= MAX_PAGES && h < W.MAX_TREE_DEPTH
      modifies this
      ensures Valid() && deltas == old(deltas)
      ensures var s := W.Site(e, old(NextPage()), old(Pages()), [], []);
              W.RootTried(s, t, r, RootInsert(t, e, ROW_BRANCH_KEYS, s.n), Pages(), NextPage(), root, newRoot)
    {
      ghost var v, n := Pages(), NextPage();
      var guard := OpenGuard();
      assert guard.View() == v && guard.Next() == n;
      r, newRoot := InsertThrough(guard, root, e, t, h);
      CloseGuard(guard);
    }

    method InsertThrough(guard: WriteGuard, root: nat, e: Entry, ghost t: Tree, ghost h: nat)
        returns (r: W.InsertResult, newRoot: nat)
      requires guard.Valid() && root == Root(t) && e.id < MAX_ID
      requires Shaped(t) && Wf(t, h, 0, MAX_ID, ROW_BRANCH_KEYS, 1) && Owned(t, guard.Next()) && guard.Next() > 0
      requires Holds(guard.View(), t) && W.Linked(guard.View(), LeafPages(Fringe(t)))
      requires guard.Next() <= MAX_PAGES && h < W.MAX_TREE_DEPTH
      modifies guard
      ensures guard.Valid()
      ensures var s := W.Site(e, old(guard.Next()), old(guard.View()), [], []);
              W.RootTried(s, t, r, RootInsert(t, e, ROW_BRANCH_KEYS, s.n), guard.View(), guard.Next(), root, newRoot)
    {
      var tree := new W.BTreeWriter(guard, root);
      r := tree.InsertRoot(e, ROW_BRANCH_KEYS, t, h, MAX_ID);
      newRoot := tree.root;
    }
  }

  /** A transaction held across waits: it takes the gate at its first write and keeps it to the end. */
  class OwnedTransaction {
    const id: nat
    const db: Database
    const tx: AcidTransaction
    var guard: bool
    var open: bool

    /** Whoever holds the gate is the only one with anything staged. */
    ghost predicate Valid()
      reads this, db, db.file, tx
    {
      && tx.db == db && tx.Valid()
      && (guard <==> open && db.gate == Some(id))
      && (open && !guard ==> tx.Overlay() == G.EMPTY)
    }

    /** This task in a system with whatever other open tasks. */
    ghost function Among(others: map<nat, G.Task>): G.Sys
      reads this, db, db.file, tx
    {
      G.Sys(db.Committed(), db.gate, if open then others[id := G.Task(tx.Overlay(), guard)] else others)
    }

    constructor (db: Database, id: nat)
      requires db.Valid() && db.gate != Some(id)
      ensures this.db == db && this.id == id && fresh(tx) && Valid() && open && !guard
      ensures forall others: map<nat, G.Task> ::
        Among(others) == G.Sys(db.Committed(), db.gate, others[id := G.Task(G.EMPTY, false)])
    {
      this.db, this.id, guard, open := db, id, false, true;
      tx := new AcidTransaction(db);
    }

    /** Waits for the gate unless it is already held; here the wait is over. */
    method EnsureWriteGate()
      requires Valid() && open && (guard || db.gate == None)
      modifies this`guard, db`gate
      ensures Valid() && guard && db.gate == Some(id)
      ensures db.Committed() == old(db.Committed())
    {
      if !guard {
        db.gate := Some(id);
        guard := true;
      }
    }

    /** Publishes the overlay and lets go of the gate. */
    method Commit()
      requires Valid() && open
      modifies this, tx, db, db.file
      ensures !open && !guard
      ensures old(tx.NextPage()) <= MAX_PAGE_NO ==>
        forall others: map<nat, G.Task> :: id !in others ==> Among(others) == G.Next(old(Among(others)), G.Commit(id))
    {
      tx.Commit();
      Release();
      assert forall others: map<nat, G.Task> :: id !in others ==> others[id := G.Task(old(tx.Overlay()), old(guard))] - {id} == others;
    }

    /** Dropping it leaves the committed state alone. */
    method Abandon()
      requires Valid() && open
      modifies this, db`gate
      ensures !open && !guard
      ensures forall others: map<nat, G.Task> :: id !in others ==> Among(others) == G.Next(old(Among(others)), G.Abandon(id))
    {
      Release();
      assert forall others: map<nat, G.Task> :: id !in others ==> others[id := G.Task(old(tx.Overlay()), old(guard))] - {id} == others;
    }

    method Release()
      requires open && (guard ==> db.gate == Some(id))
      modifies this`guard, this`open, db`gate
      ensures !open && !guard && db.gate == if old(guard) then None else old(db.gate)
    {
      if guard { db.gate := None; }
      guard, open := false, false;
    }
  }
}
