/** The byte images of pages against the pages the tree works on. */
module PageDepicts {
  import opened Bytes
  import opened Overflow
  import opened LeafSplit
  import opened BTree
  import opened Store
  import opened PageImage

  function Bodies(rows: seq<Entry>): (s: seq<seq<Byte>>)
    ensures |s| == |rows|
  {
    seq(|rows|, i requires 0 <= i < |rows| => rows[i].data)
  }

  /** Every row carries its rowid in its first 8 bytes. */
  ghost predicate Tagged(rows: seq<Entry>) {
    forall i :: 0 <= i < |rows| ==> |rows[i].data| >= 8 && rows[i].id == FromLe(rows[i].data[..8])
  }

  /** `d` is the image of a leaf or branch page. */
  ghost predicate Depicts(d: seq<Byte>, page: Page) {
    match page
    case LeafPage(rows, next, prev) => Tagged(rows) && HoldsRows(d, Bodies(rows)) && Linked(d, next, prev)
    case BranchPage(keys, children) => HoldsBranch(d, children, keys)
    case _ => false
  }

  /** An image depicts at most one page. */
  lemma DepictsUnique(d: seq<Byte>, a: Page, b: Page)
    requires Depicts(d, a) && Depicts(d, b)
    ensures a == b
  {
    match a
    case LeafPage(rows, _, _) =>
      assert b.LeafPage?;
      RowsUnique(d, Bodies(rows), Bodies(b.rows));
      forall i | 0 <= i < |rows| ensures rows[i] == b.rows[i] {
        assert Bodies(rows)[i] == Bodies(b.rows)[i];
      }
    case BranchPage(keys, children) =>
      assert b.BranchPage?;
      forall i: nat | i < |keys| ensures keys[i] == b.keys[i] && children[i] == b.children[i] {
        assert EntryAt(d, i, children[i], keys[i]) && EntryAt(d, i, b.children[i], b.keys[i]);
      }
  }

  /** The byte accounting of splits is the accounting of images. */
  lemma FitsImage(rows: seq<Entry>)
    ensures RowsFit(Bodies(rows)) <==> Fits(Sizes(rows))
  {
    SumLen(rows);
  }

  lemma {:induction false} SumLen(rows: seq<Entry>)
    ensures Len(Bodies(rows)) == Sum(Sizes(rows))
  {
    if rows != [] {
      SumLen(rows[1..]);
      assert Bodies(rows)[1..] == Bodies(rows[1..]) && Sizes(rows)[1..] == Sizes(rows[1..]);
    }
  }

  lemma BodiesInsert(rows: seq<Entry>, e: Entry)
    ensures var pos := LowerBound(rows, e.id);
            Inserted(Bodies(rows), pos, e.data) == Bodies(Insert(rows, e))
  {
    var pos := LowerBound(rows, e.id);
    BodiesJoin(rows[..pos], e, rows[pos..]);
    BodiesRange(rows, 0, pos);
    BodiesRange(rows, pos, |rows|);
  }

  lemma BodiesJoin(a: seq<Entry>, e: Entry, b: seq<Entry>)
    ensures Bodies(a + [e] + b) == Bodies(a) + [e.data] + Bodies(b)
  {
  }

  lemma BodiesRange(rows: seq<Entry>, from: nat, to: nat)
    requires from <= to <= |rows|
    ensures Bodies(rows)[from..to] == Bodies(rows[from..to])
  {
  }

  /** Inserting a row that fits turns the image of a leaf into the image of the leaf with the row. */
  method InsertImage(buf: PageBuf, page: Page, e: Entry)
    requires buf.data.Length == PAGE_SIZE && page.LeafPage? && Depicts(buf.data[..], page)
    requires Tagged([e]) && Fits(Sizes(Insert(page.rows, e)))
    modifies buf.data
    ensures Depicts(buf.data[..], page.(rows := Insert(page.rows, e)))
  {
    InsertReady(page.rows, e);
    buf.WriteLeafWithInsert(buf.data[..], |page.rows|, LowerBound(page.rows, e.id), e.data, Bodies(page.rows));
  }

  lemma InsertReady(rows: seq<Entry>, e: Entry)
    requires Tagged(rows) && Tagged([e]) && Fits(Sizes(Insert(rows, e)))
    ensures Inserted(Bodies(rows), LowerBound(rows, e.id), e.data) == Bodies(Insert(rows, e))
    ensures RowsFit(Bodies(Insert(rows, e))) && Tagged(Insert(rows, e))
  {
    BodiesInsert(rows, e);
    FitsImage(Insert(rows, e));
    TaggedInsert(rows, e);
  }

  lemma TaggedJoin(a: seq<Entry>, b: seq<Entry>, c: seq<Entry>)
    requires Tagged(a) && Tagged(b) && Tagged(c)
    ensures Tagged(a + b + c)
  {
    var all := a + b + c;
    forall i | 0 <= i < |all| ensures |all[i].data| >= 8 && all[i].id == FromLe(all[i].data[..8]) {
      assert all[i] == if i < |a| then a[i] else if i < |a| + |b| then b[i - |a|] else c[i - |a| - |b|];
    }
  }

  /** One half of a split images exactly its slice of the rows with the new row in them. */
  method HalfImage(buf: PageBuf, snapshot: seq<Byte>, page: Page, e: Entry, from: nat, to: nat)
    requires buf.data.Length == PAGE_SIZE && page.LeafPage? && Depicts(snapshot, page) && Tagged([e])
    requires from <= to <= |page.rows| + 1 && Fits(Sizes(Insert(page.rows, e)[from..to]))
    modifies buf.data
    ensures Depicts(buf.data[..], LeafPage(Insert(page.rows, e)[from..to], 0, 0))
  {
    var rows := page.rows;
    HalfReady(rows, e, from, to);
    buf.WriteLeafRange(snapshot, |rows|, LowerBound(rows, e.id), e.data, from, to, Bodies(rows));
  }

  lemma HalfReady(rows: seq<Entry>, e: Entry, from: nat, to: nat)
    requires Tagged(rows) && Tagged([e]) && from <= to <= |rows| + 1 && Fits(Sizes(Insert(rows, e)[from..to]))
    ensures Inserted(Bodies(rows), LowerBound(rows, e.id), e.data)[from..to] == Bodies(Insert(rows, e)[from..to])
    ensures RowsFit(Bodies(Insert(rows, e)[from..to])) && Tagged(Insert(rows, e)[from..to])
  {
    var all := Insert(rows, e);
    BodiesInsert(rows, e);
    BodiesRange(all, from, to);
    FitsImage(all[from..to]);
    TaggedInsert(rows, e);
    TaggedPart(all, from, to);
  }

  lemma TaggedInsert(rows: seq<Entry>, e: Entry)
    requires Tagged(rows) && Tagged([e])
    ensures Tagged(Insert(rows, e))
  {
    var pos := LowerBound(rows, e.id);
    TaggedPart(rows, 0, pos);
    TaggedPart(rows, pos, |rows|);
    TaggedJoin(rows[0..pos], [e], rows[pos..|rows|]);
    assert rows[0..pos] == rows[..pos] && rows[pos..|rows|] == rows[pos..];
  }

  lemma TaggedPart(rows: seq<Entry>, from: nat, to: nat)
    requires Tagged(rows) && from <= to <= |rows|
    ensures Tagged(rows[from..to])
  {
    assert forall i :: 0 <= i < to - from ==> rows[from..to][i] == rows[from + i];
  }

  /** A valid split writes both pages from one snapshot of the old leaf. */
  method SplitImage(left: PageBuf, right: PageBuf, page: Page, e: Entry, mid: nat)
    requires left.data.Length == PAGE_SIZE && right.data.Length == PAGE_SIZE && left.data != right.data
    requires page.LeafPage? && Depicts(left.data[..], page) && Tagged([e])
    requires ValidSplit(Sizes(Insert(page.rows, e)), mid)
    modifies left.data, right.data
    ensures Depicts(left.data[..], LeafPage(Insert(page.rows, e)[..mid], 0, 0))
    ensures Depicts(right.data[..], LeafPage(Insert(page.rows, e)[mid..], 0, 0))
  {
    var snapshot := left.data[..];
    SplitFits(Insert(page.rows, e), mid);
    HalfImage(left, snapshot, page, e, 0, mid);
    HalfImage(right, snapshot, page, e, mid, |page.rows| + 1);
  }

  lemma SplitFits(all: seq<Entry>, mid: nat)
    requires ValidSplit(Sizes(all), mid)
    ensures all[..mid] == all[0..mid] && all[mid..] == all[mid..|all|]
    ensures Fits(Sizes(all[..mid])) && Fits(Sizes(all[mid..]))
  {
    assert Sizes(all)[..mid] == Sizes(all[..mid]) && Sizes(all)[mid..] == Sizes(all[mid..]);
  }

  /** Deleting a row leaves the image of the leaf without it, links cleared. */
  method RemoveImage(buf: PageBuf, page: Page, id: nat)
    requires buf.data.Length == PAGE_SIZE && page.LeafPage? && Depicts(buf.data[..], page) && Contains(page.rows, id)
    modifies buf.data
    ensures Depicts(buf.data[..], LeafPage(Remove(page.rows, id), 0, 0))
  {
    var snapshot := buf.data[..];
    var rows := page.rows;
    var pos := LowerBound(rows, id);
    assert Bodies(rows)[..pos] + Bodies(rows)[pos + 1..] == Bodies(Remove(rows, id));
    buf.WriteLeafWithout(snapshot, |rows|, pos, Bodies(rows));
  }
}
