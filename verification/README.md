# Verification of the boogy-db storage engine

A Dafny model of boogy-db: the B+ tree over 4096-byte pages, the secondary index tree, the
dirty overlay with its transactions and write gate, the row, overflow and registry codecs,
and the page-level redo log. `dafny verify dfyconfig.toml` checks everything.

## How the model is layered

- `Seqs`, `Bytes`, `Values`: sequence facts, fixed-width integers in both byte orders, values.
- `Overflow`, `ValueCodec`, `RowLayout`, `RowCodec`, `RowBytes`, `RowStorage`, `Registry`: the byte formats.
- `LeafSplit`, `BTree`, `BTreeShape`, `BTreeLeaves`, `BTreePages`, `BTreeRuns`, `BTreeOverrun`: the
  tree as a value with exact byte and page accounting, whole runs of operations against a finite
  map, and exactly when a run overruns a page.
- `Store`, `BTreeStored`, `BTreeWriter`, `BTreeReader`, `PagedRuns`, `BTreeBulk`, `BulkRuns`: the same
  tree as page-changing methods over a write guard, proved against the value, and whole runs on
  pages. The leaf chain is a doubly linked list of pages; readers walk it.
- `PageImage`, `PageDepicts`: the byte arrays of leaf and branch pages and the in-place loops
  that write them, proved to image exactly the pages the tree works on.
- `IndexKey`, `IndexTree`, `IndexReader`, `PagedIndexRuns`: key encoding, the index tree (the row
  tree with keys ranked by byte order and a smaller branch) as a sorted set, prefix scans and the
  key cursor, whole runs on pages.
- `Cursor`, `IndexCursor`: what a batch returns and how batches tile a scan, by rowid and in index
  order, over the pages and over a transaction's own view.
- `Filters`, `IndexedTable`, `IndexFind`, `Unique`, `Schema`: filters, index maintenance, finding by
  index against finding by scan, unique indexes, schema changes.
- `Gate`, `Counters`, `Transaction`, `Wal`: interleaved transactions, counters, the transaction
  objects, the redo log.

Index trees use the same writer as row trees, with `INDEX_BRANCH_KEYS` and the entry bytes of
`IndexTree.KeyEntry`: a key of at most 36 bytes is ordered by its rank, a number that compares as
the bytes do (`IndexKey.RankOrder`).

## What the program relies on, stated as preconditions

Page 0 is reserved; one writer at a time, whose guard ends in commit, discard or drain; rowids
below the 64-bit maximum; index keys of at most 36 bytes (so branch keys are never cut);
indexed text free of the zero byte; a short row that does not look as if it had an overflow
trailer, and a row begins with its id; distinct column ids in a row and column offsets that fit
16 bits; keys of counters without an integer against a real. Running out of page numbers is modelled: the operation answers so, exactly when it needs
more than there are, and a run of operations ends there.

## Results worth knowing

- Splitting a leaf at half its row count is safe for a row size limit exactly up to 214 bytes
  (`LeafSplit.MidpointSafeUpTo214`); above it a half can exceed its page, where the program slices
  past the page or lets the checksum overwrite row bytes. The model calls this outcome `Overrun`
  and says nothing of what is left after it. A run meets it exactly when some insertion meets a
  leaf that cannot take its row (`BTreeOverrun.RunOverrunsExactly`), and runs are free of it for a
  row size limit exactly up to 214 (`BTreeOverrun.RunsSafeUpTo214`, with a run of 37 insertions
  that fails at 215).
- The greedy split point for a page-filling row is complete, its fallback scan never helps, and
  a valid split exists exactly when the row goes to one end of the leaf
  (`LeafSplit.SplitPointComplete`, `FallbackNeverHelps`, `PageFillingRowSplits`). The comment on the
  function says both halves fit; the code returns an invalid point in the other case.
- An overlay put back over a file that has grown in the meantime is sound exactly when it had
  allocated no page (`Store.GrownFile`); the write gate rules the other case out.
- The last page number can be allocated but not committed: the count of a file that full does not fit
  32 bits (`Store.WriteGuard.Commit`).
- A short row reads back as itself, whatever overflow pages exist, exactly when it does not look as if
  it had a trailer (`Overflow.WholeReadsBack`); a row that ends in a blob of ten bytes or more looks so
  exactly when the blob does (`RowStorage.BlobLooksSpilled`).
- A spilled row reads back exactly when it is within the reassembly cap (`Overflow.OverflowCapIsExact`).
- The directory of a row keeps 16 bits of each offset and the encoder does not check: the last
  column is found exactly when its offset fits (`RowCodec.LastColumnNeedsFit`), and a patch fails
  exactly when an offset of the changed row does not fit (`RowCodec.PatchIsEncode`).
- The multi-column key encoder does not reject text with a zero byte, though its comment says such
  text is rejected. Probes find exactly their own text exactly when the key's text is free of it
  (`IndexKey.TerminatorMatters`).
- A branch cuts separators at 36 bytes. After a leaf split the cut separator still routes every key to
  its own half exactly when the last key on the left does not begin with it
  (`IndexTree.SplitRoutes`, `CutRoutes`); keys of at most 36 bytes never do.
- A limited prefix scan looks at the limit after it has taken a key: it returns the first `n` keys
  exactly when `n` is not 0 or there are none (`IndexReader.ClipIsFirst`, `ScanPrefix`).
- Column ids are slots cut to 16 bits, and nothing limits the number of slots; dropped columns keep
  theirs. Over any run no two slots share an id exactly as long as there are at most 65536
  (`Schema.IdsNeverReused`). One more column takes the id of the first: it reads that column's values
  and dropping it drops that column (`Schema.ReusedAtLimit`). A column dropped and added again shows
  old rows only its default exactly below that limit (`Schema.ReaddNeverRevives`). Counts in the
  registry wrap at the same number (`Registry.ListCountWraps`).
- Adding a column definition already marked dropped, or one past that limit, breaks the name map, and
  no other operation does (`Schema.EvolveKeepsSound`).
- A new table accepts repeated column names. Its map keeps the last column of a name and rows read the
  first: they agree exactly when only one live column has the name (`Schema.MapAndGetAgree`).
- Indexes resolve a column's type as that of the first column of the name, dropped or not. An addition
  or a rename leaves it right exactly when no earlier slot had the name or the first that had it has
  the same type (`Schema.IndexTypeAfterNaming`, `IndexTypeAfterReadd`; two runs with a wrong type in
  `Schema.IndexTypeWrong`).
- The type-directed rowid reading asserts in debug builds that a text key has at least ten bytes, which
  holds exactly for texts that are not empty (`IndexKey.TextKeyLength`); without the assertion the
  reading is right for all (`IndexKey.SingleRowid`).
- The walk over a spilled registry has no cycle guard. It ends exactly when it does not come back to a
  page with nothing read in between (`Registry.WalkEndsExactly`; a page without payload linking to
  itself in `Registry.SelfLinkGoesRound`).

## Model

| member | source | states |
|---|---|---|
| Overflow.OverflowRoundTrip | src/btree.rs:17-52 | a row spilled to a chain and read back through the trailer is the row, and the chain guard does not fire |
| Overflow.OverflowCapIsExact | src/btree.rs:27-38 | an oversized row is readable exactly when it is no longer than the 64 MB cap |
| Overflow.WholeReadsBack | src/overflow.rs:19-26 | a row stored whole reads back as itself in every file exactly when it shows no trailer |
| Overflow.ReassembleMonotone | src/btree.rs:17-52 | pages added to the file never change what a stored row reads as |
| LeafSplit.SplitPointComplete | src/btree.rs:1603-1662 | the chosen split point is valid exactly when some split is |
| LeafSplit.FallbackNeverHelps | src/btree.rs:1641-1662 | when the greedy point fails no split is valid |
| LeafSplit.PageFillingRowSplits | src/btree.rs:1076-1133 | a page-filling row can be split off exactly when it goes to one end of the leaf |
| LeafSplit.FindOverflowSplitPoint | src/btree.rs:1603-1662 | the loops compute the greedy split point of the sizes with the new row among them |
| LeafSplit.MidpointSafeUpTo214 | src/btree.rs:1051-1181 | splitting at half the count is safe for a size limit exactly up to 214 bytes |
| LeafSplit.MidpointFits | src/btree.rs:1135-1181 | with rows of 10 to 214 bytes both halves of an overfull leaf fit |
| BTreeShape.TreeInsertWf | src/btree.rs:963-1231 | insertion keeps equal leaf depth, separators bounding every subtree, sorted rows and branch fill |
| BTreeShape.RootInsertWf | src/btree.rs:683-701 | a root split adds exactly one level and keeps the shape |
| BTreeShape.TreeDeleteWf | src/btree.rs:1235-1296 | deletion keeps the shape |
| BTreeLeaves.SearchRefines | src/btree.rs:1702-1717 | the child routing of every level leads to the one leaf that decides: searching it is searching all rows in order |
| BTreeLeaves.InsertRefines | src/btree.rs:963-1007 | insertion refuses exactly the ids present and otherwise adds exactly one row in its place |
| BTreeLeaves.DeleteRefines | src/btree.rs:1235-1296 | deletion removes exactly the row with the id |
| BTreePages.InsertConservesPages | src/btree.rs:1096-1231 | no page of the tree is lost or used twice, each allocated page is used once |
| BTreePages.DeleteKeepsPages | src/btree.rs:1235-1296 | deletion keeps every page where it is |
| BTreePages.LeavesDistinct | src/btree.rs:116-147 | the pages of the leaf chain are distinct and allocated |
| BTreePages.Pigeonhole | src/btree.rs:119-128 | distinct pages below the page count are no more than the page count the walks compare with |
| BTreePages.DepthBound | src/btree.rs:9-11 | with 32-bit page numbers a row tree has at most 5 branch levels and an index tree at most 6 |
| BTreeRuns.StepRefines | src/btree.rs:683-711 | one insert, delete or lookup answers and acts as on a finite map |
| BTreeRuns.RunRefinesMap | src/btree.rs:683-711 | every run answers as a finite map would, up to where it stops if it does, and leaves a well-formed tree of bounded depth holding exactly the map, unless a page overran |
| BTreeOverrun.LeafOverrunsExactly | src/btree.rs:1076-1181 | a leaf cannot take a new row exactly when a page-filling row goes between two rows, or another row makes a half at half the count too long |
| BTreeOverrun.StepOverrunsExactly | src/btree.rs:1036-1181 | an operation overruns a page exactly when it inserts a new row that the leaf of its id cannot take, page numbers allowing |
| BTreeOverrun.RunOverrunsExactly | src/btree.rs:683-711 | a run overruns a page exactly when some operation it gets to does |
| BTreeOverrun.SmallRunsNeverOverrun | src/btree.rs:1036-1181 | with rows of 10 to 214 bytes a run stops only when the file is full |
| BTreeOverrun.TightRowsOverrun | src/btree.rs:1135-1181 | 37 rows of at most 215 bytes inserted in order into a new tree overrun its page |
| BTreeOverrun.RunsSafeUpTo214 | src/btree.rs:1036-1181 | the row size limit up to which no run overruns a page is exactly 214 bytes |
| BTreeRuns.CreateValid | src/btree.rs:675-680 | the empty tree is well formed and holds the empty map |
| Store.PageFile.ReadPage | src/file.rs:77-117 | reading succeeds exactly for the pages the file has and gives the committed page |
| Store.PageFile.PutPageDirect | src/file.rs:128-152 | recovery writes one page, extends the count when needed, and leaves a gap exactly when it writes beyond the end |
| Store.GrownFile | src/file.rs:333-354 | an overlay put over a grown file is sound exactly when no page was allocated in it |
| Store.WriteGuard.ReadPage | src/file.rs:229-235 | reads see the overlay over the file |
| Store.WriteGuard.WritePage | src/file.rs:240-247 | taking a page for writing changes nothing readers of the guard see |
| Store.WriteGuard.AllocatePage | src/file.rs:250-258 | the next page number is handed out, blank, unless numbers have run out |
| Store.WriteGuard.PutPage | src/file.rs:261-263 | exactly one page of the view is replaced |
| Store.WriteGuard.Commit | src/file.rs:269-304 | the file becomes what the guard showed, the staged pages are returned, the overlay is empty; fails exactly when the page count does not fit 32 bits |
| Store.WriteGuard.Discard | src/file.rs:307-310 | the view is the committed file again |
| Store.WriteGuard.InjectDirty | src/file.rs:333-339 | the view gains the injected pages wherever nothing is staged yet |
| Store.WriteGuard.DrainDirty | src/file.rs:342-344 | the view falls back to the committed pages, and what is handed out makes up the old view |
| BTreeStored.OtherTreeKept | src/btree.rs:1036-1181 | a change framed to one tree leaves every tree on other pages as it was, leaf chain included |
| BTreeWriter.FindInsertionPoint | src/btree.rs:1342-1360 | the binary search gives the first position not below the id and whether the id is there |
| BTreeWriter.FindChild | src/btree.rs:1702-1717 | the scan gives the first child whose separator is above the id, else the last |
| BTreeWriter.BTreeWriter.Create | src/btree.rs:675-680 | a new tree is one empty leaf on the next page, unless page numbers have run out |
| BTreeWriter.BTreeWriter.WriteOverflowRow | src/btree.rs:1011-1034 | the chain's pages are staged and the inline part names them, or page numbers run out, exactly when the chain needs more than there are |
| BTreeWriter.BTreeWriter.SplitLeaf | src/btree.rs:1135-1181 | two leaves hold the two parts and the neighbours' links are spliced |
| BTreeWriter.BTreeWriter.InsertIntoLeaf | src/btree.rs:1036-1181 | the pages are changed exactly as the leaf's outcome demands; of the other pages only the next leaf's back link may change; refused exactly when page numbers run out |
| BTreeWriter.BTreeWriter.InsertIntoBranch | src/btree.rs:1185-1231 | a branch takes in a split child, splitting itself when full, refused exactly when no page number is left for that |
| BTreeWriter.BTreeWriter.InsertRecursive | src/btree.rs:963-1007 | the subtree and the leaf chain are as the outcome demands, every other page is as it was but for the back link of the leaf behind; refused exactly when page numbers run out |
| BTreeWriter.BTreeWriter.InsertRoot | src/btree.rs:683-701 | the stored tree becomes the inserted tree and stays one doubly linked chain, every page outside it is exactly as it was; a duplicate changes nothing; refused exactly when page numbers run out |
| BTreeWriter.BTreeWriter.DeleteRecursive | src/btree.rs:1235-1296 | one leaf is rewritten, its chain stays and every page outside the subtree is exactly as it was |
| BTreeWriter.BTreeWriter.DeleteRoot | src/btree.rs:705-708 | reports whether the row existed and stores the tree without it, every page outside the tree exactly as it was |
| BTreeReader.BTreeReader.FindLeafForRowid | src/btree.rs:485-497 | the descent ends at the one leaf where the id belongs |
| BTreeReader.BTreeReader.FindLeftmostLeaf | src/btree.rs:445-455 | the first leaf of the chain |
| BTreeReader.BTreeReader.FindRightmostLeaf | src/btree.rs:500-512 | the last leaf of the chain |
| BTreeReader.BTreeReader.Search | src/btree.rs:458-482 | the descent through pages gives the row of the tree, reassembled, and the depth guard never fires |
| BTreeReader.BTreeReader.ScanAll | src/btree.rs:116-147 | exactly all rows in id order, and the cycle guard never fires |
| BTreeReader.BTreeReader.ScanFrom | src/btree.rs:530-653 | exactly the batch of the cursor, in either direction |
| BTreeReader.BTreeReader.MultiGetSorted | src/btree.rs:214-265 | exactly the rows with the given ids, in order |
| BTreeReader.NamedAre | src/btree.rs:214-265 | the rows with the given ids are exactly those of the table whose id is listed, in id order |
| BTreeReader.BTreeReader.ReassembleRow | src/btree.rs:17-52 | the chain loop reads what the format says, errors included |
| PagedRuns.Operate | src/btree.rs:683-711 | one operation on the pages answers as on the tree and leaves the pages holding the new tree |
| PagedRuns.RunOnPages | src/btree.rs:683-711 | every run on pages answers as the finite map, up to where it stops if it does, and otherwise leaves the pages holding exactly the map |
| PagedRuns.NewTree | src/btree.rs:675-680 | a new tree on pages holds the empty map |
| PagedRuns.ScanTree | src/btree.rs:116-147 | after a run the scan gives exactly the rows of the map in id order |
| Cursor.BatchAdvances | src/db.rs:1934-2012 | a batch has at most the limit of rows; a bound is given exactly when candidates are left behind a full batch, and is its last row |
| Cursor.IndexAdvances | src/db.rs:1970-2010 | a batch in index order follows the first limit entries, and gives the last of them as bound exactly when there were that many |
| Cursor.BatchesTile | src/db.rs:1934-2012 | threading the last key ends, and the batches together are exactly the passing rows past the start, in order, each once |
| Cursor.IndexBatchesTile | src/db.rs:1970-2010 | threading the last key ends, and every index entry past the start is followed exactly once, in order, whichever rows are dropped |
| IndexCursor.IndexScanBatch | src/db.rs:1970-2010 | one batch in index order on the pages is the abstract batch, its bound given as the last key |
| IndexCursor.TxIndexBatch | src/db.rs:4510-4630 | one batch in index order in a transaction: its passing rows by key, windowed, the last key only when a further row exists |
| IndexCursor.ByKeyIs | src/db.rs:4510-4630 | a transaction's index cursor lists exactly the rows of its table that pass and have a key, each under its key, keys strictly rising |
| IndexCursor.TxScanBatch | src/db.rs:4443-4508 | one batch by rowid in a transaction is the batch of the cursor over pages |
| IndexCursor.CursorsAgree | src/db.rs:1970-2010 | from any bound what is left for the cursor over pages and for the transaction's is the same rows in the same order |
| IndexCursor.ThreadsAgree | src/db.rs:4420-4634 | threading either cursor with any limits gives the same rows in the same order |
| BTreeBulk.BulkWriter.DeleteMatching | src/btree.rs:751-813 | every leaf loses exactly its matching rows, which are returned in order; every page outside the tree is as it was |
| BTreeBulk.BulkWriter.UpdateMatching | src/btree.rs:816-892 | leaves whose updated rows fit are rewritten, the matching rows of the others are listed |
| BulkRuns.DeleteMatchingOnMap | src/btree.rs:751-813 | the map loses exactly the matching rows |
| BulkRuns.InPlaceOnMap | src/btree.rs:816-892 | the in-place pass updates exactly the rows it reports, and reports or lists exactly the matching ones |
| BulkRuns.UpdateWhereIsPointwise | src/db.rs:2634-2645 | after re-inserting the listed rows the updater has been applied once to exactly the matching rows |
| PageImage.BoundsRead | src/btree.rs:1309-1328 | the bounds of a row cut out exactly its bytes |
| PageImage.RowsUnique | src/page.rs:161-164 | an image holds one row list only |
| PageImage.PageBuf.WriteLeafWithInsert | src/btree.rs:1365-1412 | the image holds the old rows with the new one in its place, links kept |
| PageImage.PageBuf.WriteLeafRange | src/btree.rs:1553-1597 | the image holds exactly the slice of the rows with the new one among them |
| PageImage.PageBuf.WriteLeafWithout | src/btree.rs:1517-1549 | the image holds the rows but the skipped one |
| PageImage.PageBuf.WriteLeafWithoutMultiple | src/btree.rs:1416-1450 | the image holds the rows but the skipped ones |
| PageImage.PageBuf.WriteLeafWithReplacements | src/btree.rs:1456-1513 | refuses, changing nothing, exactly when the replaced rows do not fit; else the image holds them, links kept |
| PageImage.PageBuf.RebuildBranchFlat | src/btree.rs:1752-1761 | the image holds exactly these children and keys |
| PageImage.PageBuf.CollectBranchFlat | src/btree.rs:1740-1750 | reads back what the image holds |
| PageImage.PageBuf.InsertBranchEntry | src/btree.rs:1730-1738 | the image holds the entries with the new separator and child in place |
| PageDepicts.DepictsUnique | src/page.rs:80-141 | a byte image depicts at most one page |
| PageDepicts.FitsImage | src/btree.rs:1051-1063 | the byte accounting of splits is the accounting of images |
| PageDepicts.InsertImage | src/btree.rs:1365-1412 | the image of a leaf becomes the image of the leaf with the row |
| PageDepicts.SplitImage | src/btree.rs:1135-1181 | the two images decode to exactly the two slices of the rows with the new one among them |
| PageDepicts.RemoveImage | src/btree.rs:1517-1549 | the image becomes that of the leaf without the row |
| IndexKey.SortableIntegerValue | src/index.rs:150-154 | the integer encoding is the number shifted up by 2^63 |
| IndexKey.PartOrder | src/index.rs:129-166 | one value: byte order is value order and no encoding starts another |
| IndexKey.EncodeTuplePrefix | src/index.rs:59-72 | the loop concatenates the parts, or gives none when a part has none |
| IndexKey.EncodedWhenPresent | src/index.rs:27-37 | a tuple is encoded exactly when no component is null or not indexable |
| IndexKey.KeyOrder | src/index.rs:50-54 | byte order of keys is the order of (values, rowid) |
| IndexKey.PrefixMatches | src/index.rs:59-72 | leading values start a key exactly when the key's row has them |
| IndexKey.KeyRecovers | src/db.rs:136-140 | the rowid is recovered and a key determines its tuple |
| IndexKey.TerminatorMatters | src/index.rs:59-72 | probes are exact exactly when the key's text is free of the terminator |
| IndexKey.SingleRowid | src/index.rs:76-92 | on keys of one column the type-directed reading gives the rowid |
| IndexKey.TextKeyLength | src/index.rs:83-88 | a text key has the ten bytes the debug assertion asks for exactly when the text is not empty |
| IndexKey.RankOrder | src/index.rs:1052-1070 | ranks order keys as bytes do |
| IndexTree.EntryReads | src/index.rs:786-799 | an entry decodes to its key |
| IndexTree.BranchKeepsKey | src/index.rs:1072-1084 | a branch keeps a separator whole exactly when it has at most 36 bytes |
| IndexTree.CutRoutes | src/index.rs:1052-1084 | a key is routed by the cut separator as by the whole one, unless it begins with the cut one and is below the whole one |
| IndexTree.SplitRoutes | src/index.rs:568-651 | after a leaf split every key is routed to its own half exactly when the last key on the left does not begin with the cut separator |
| IndexTree.AddNeverBreaks | src/index.rs:568-651 | every split of an index leaf at half the count fits, and the key is added in place |
| IndexTree.ApplyRefines | src/index.rs:500-524 | one insertion of an absent key, deletion or lookup does what it does on a set |
| IndexTree.IndexRunRefinesSet | src/index.rs:499-770 | every run answers as a set would and leaves a tree at most 6 levels deep listing exactly the set in byte order |
| PagedIndexRuns.OperateIndex | src/index.rs:499-770 | one index operation on the pages answers as on the tree and leaves the pages holding the new tree, or finds no page left |
| PagedIndexRuns.RunIndexOnPages | src/index.rs:499-770 | every run of index operations on pages answers as the set of keys and leaves a stored tree of exactly the set |
| PagedIndexRuns.ScanIndex | src/index.rs:197-237 | after a run a prefix scan gives exactly the keys of the set with the prefix, in byte order |
| IndexReader.ClipIsFirst | src/index.rs:276-317 | the limited scan gives the first so many keys exactly when the limit is not 0 or there are none |
| IndexReader.WalkTakesAll | src/index.rs:213-227 | on sorted keys, skipping to the prefix and stopping after it takes exactly the keys with it |
| IndexReader.IndexTreeReader.FindLeafForKey | src/index.rs:322-334 | the descent ends at the leaf where the key belongs |
| IndexReader.IndexTreeReader.ScanPrefix | src/index.rs:197-317 | exactly the keys with the prefix in order, or the first so many, where limit 0 counts as 1 |
| IndexReader.IndexTreeReader.CountPrefix | src/index.rs:239-274 | their number |
| IndexReader.IndexTreeReader.ScanFromKey | src/index.rs:377-470 | the first keys past the bound in scan direction, and whether a further one exists |
| ValueCodec.ValueRoundTrip | src/row.rs:314-348 | a value reads back from its bytes whatever follows |
| ValueCodec.Utf8IsText | src/row.rs:322-324 | the bytes accepted as text are exactly the encodings of sequences of Unicode characters |
| RowBytes.ValueBytes | src/row.rs:52-80 | the tag of each kind of value, and its length and number fields byte by byte, low byte first |
| RowBytes.DecodesExactly | src/row.rs:314-348 | any bytes read as a value exactly when they begin with that value written out, any nonzero byte standing for true |
| RowLayout.SearchFinds | src/row.rs:102-116 | the binary search finds exactly the column if the directory has it |
| RowLayout.OverwriteRelays | src/row.rs:137-167 | splicing a value and moving the later offsets lays the changed row out afresh, or fails when an offset does not fit |
| RowCodec.EncodeRow | src/row.rs:23-50 | the loop lays out the columns in id order |
| RowCodec.DecodeRow | src/row.rs:186-219 | the loop decodes any bytes as specified; an offset past the end, where the program panics, is an error here |
| RowCodec.ArrangeSame | src/row.rs:28-30 | sorting keeps the columns and puts distinct ids in strict order |
| RowCodec.DecodeInvertsEncode | src/row.rs:23-50 | decoding gives the rowid and the same columns in id order |
| RowBytes.RowLies | src/row.rs:23-50 | the place of every field of an encoded row: rowid, count, ids, offsets, and the values one after the other to the end |
| RowBytes.DecodesRowExactly | src/row.rs:186-219 | any bytes decode exactly when the directory is whole and every listed column is readable, and then to exactly those columns |
| RowBytes.ExtractIsDecode | src/row.rs:273-312 | on any bytes that decode with rising ids a lookup gives what decoding gives |
| RowCodec.ExtractColumnRaw | src/row.rs:229-270 | the raw lookup on any bytes; an offset past the end, where the program panics, is an error here |
| RowCodec.ExtractColumn | src/row.rs:273-312 | the decoded lookup on any bytes; an offset past the end, where the program panics, is an error here |
| RowCodec.ExtractAgrees | src/row.rs:229-312 | both lookups agree with decoding, for columns present and absent |
| RowCodec.LastColumnNeedsFit | src/row.rs:36 | the last column is found exactly when its offset fits 16 bits |
| RowCodec.PatchRow | src/row.rs:91-168 | the patch on any bytes; an offset past the end, where the program panics, is an error here |
| RowCodec.PatchIsEncode | src/row.rs:91-168 | a patched row is byte for byte the encoding of the changed row, failing exactly when an offset does not fit |
| RowCodec.PatchMultiIsEncode | src/row.rs:171-177 | patches in turn give the encoding of the row with all of them |
| RowCodec.PatchedLookup | src/row.rs:91-168 | a patched row reads the new value in that column and the old ones elsewhere |
| RowCodec.PatchKeepsRowid | src/row.rs:91-168 | whatever the bytes, the rowid stays |
| RowStorage.EncodedKeyed | src/row.rs:23-50 | an encoded row begins with its id and has at least 10 bytes |
| RowStorage.EncodedRowOk | src/overflow.rs:19-26 | the tree accepts an encoded row exactly when it is within the cap and, if short, shows no trailer |
| RowStorage.BlobLooksSpilled | src/overflow.rs:19-26 | a row ending in a blob of ten bytes or more looks spilled exactly when the blob does |
| Registry.SerializeSystemMetas | src/db.rs:407-463 | the loop prints the registry |
| Registry.SerializeSystemPage | src/db.rs:476-543 | inline with zero padding up to 4066 bytes, else inline head, trailer and a chain |
| Registry.TablesParse | src/db.rs:548-759 | parsing what was printed gives the registry back, whatever padding follows |
| Registry.MagicFirst | src/db.rs:548-575 | the four magic bytes begin every registry, and nothing without them is read as one |
| Registry.ListCountWraps | src/db.rs:407-463 | a list reads back exactly when it has fewer than 65536 elements; a longer one loses that from its count |
| Registry.WalkEndsExactly | src/db.rs:796-816 | the walk ends exactly when it does not come back to a page with nothing read in between |
| Registry.SelfLinkGoesRound | src/db.rs:796-816 | a page without payload that links to itself keeps the walk going for good |
| Registry.ReassembleRegistry | src/db.rs:762-830 | wherever it ends, the walk over page 0 and its chain reads what the format says, errors included |
| Registry.RegistryReadsBack | src/db.rs:476-830 | what was written reads back as the registry, inline or spilled, whatever other pages exist, and the walk ends |
| Gate.StageSees | src/db.rs:3643-3660 | an operation's changes stay private and the transaction sees exactly what it made of its view |
| Gate.PublishIsSeen | src/db.rs:4772-4863 | commit publishes exactly the transaction's view |
| Gate.StepKeeps | src/async_db.rs:325-341 | every event keeps that only the gate holder has anything staged, over the current state |
| Gate.GatedRunsAreSerial | src/async_db.rs:325-341 | in every interleaving the committed state is the committed writes run serially in commit order |
| Gate.NewPagesNeverClash | src/file.rs:250-258 | page numbers allocated in an overlay are unused in the file and in every other overlay |
| Gate.AbandonChangesNothing | src/async_db.rs:471-475 | a dropped transaction leaves no trace in the rest of the run |
| Gate.FreshRunIsSerial | src/async_db.rs:325-341 | the same from any state without open transactions |
| Gate.WhoMayAct | src/async_db.rs:325-341 | in every state reached a transaction writes exactly when no other holds the gate, can always end, and frees the gate by ending if it held it |
| Gate.FinishRuns | src/async_db.rs:458-468 | a transaction that finds the gate free or holds it can do all its writes and commit them, and that is what the state becomes |
| Counters.UpsertAdds | src/db.rs:4009-4058 | one call moves the count of its key by the amount, wrapping, and no other count, keys compared as equality filters do |
| Counters.UpsertSets | src/db.rs:4009-4058 | if the key had a row it is the one returned, with the fields set and its other columns kept; else a new row has the next id and just the fields; every other row is as it was, ids stay distinct |
| Counters.UpsertRefuses | src/db.rs:107-131 | refused exactly when the first row of the key has something other than null or an integer in the counter column |
| Counters.PassesIsSameKey | src/db.rs:4029-4036 | the equality filters of the key columns find exactly the rows with the same key, both zeros and all NaNs alike |
| Counters.UpsertsMove | src/db.rs:113-130 | an operation that is an upsert moves exactly its key's counter |
| Counters.CountersSumUp | src/db.rs:4009-4058 | a counter ends at the wrapping sum of all committed amounts, whatever the interleaving |
| Transaction.AcidTransaction.OpenGuard | src/db.rs:3643-3652 | the guard shows the committed pages under the private ones |
| Transaction.AcidTransaction.CloseGuard | src/db.rs:3654-3660 | everything staged returns to the overlay and the file is untouched |
| Transaction.AcidTransaction.NextGuard | src/db.rs:3643-3660 | from one operation to the next, the guard over the drained and injected pages shows and allocates exactly as the one before |
| Transaction.AcidTransaction.RecordInsert | src/db.rs:3911-3923 | the table's delta gets the new root, one more row and the next rowid |
| Transaction.AcidTransaction.Insert | src/db.rs:3851-3925 | the transaction's view gets the inserted tree, the committed state stays |
| Transaction.AcidTransaction.Commit | src/db.rs:4772-4863 | the committed state becomes the published one, pages and table data at once |
| Transaction.OwnedTransaction.EnsureWriteGate | src/async_db.rs:337-341 | the gate is held afterwards and a second call changes nothing |
| Transaction.OwnedTransaction.Commit | src/async_db.rs:458-468 | the commit event of the gated system among whatever other open tasks, gate released, page count permitting |
| Transaction.OwnedTransaction.Abandon | src/async_db.rs:471-475 | the abandon event of the gated system among whatever other open tasks, gate released |
| Wal.Wal.AppendPageImage | src/wal.rs:68-97 | appends exactly one entry with the next sequence number, refusing when the count is full |
| Wal.Wal.ReadEntries | src/wal.rs:106-138 | exactly the logged entries in order |
| Wal.Wal.Truncate | src/wal.rs:141-148 | the log is empty and sequences start over |
| Wal.RedoRestoresCache | src/db.rs:868-881 | replaying the log over the old file gives the cached pages and page count |
| Wal.ReplayHeals | src/db.rs:868-881 | whatever was left in logged pages, a full replay gives the same file |
| Wal.PartialReplayHarmless | src/db.rs:868-881 | a crash after any number of replayed entries, and replaying twice, change nothing |
| Wal.Recover | src/db.rs:868-881 | the replay loop computes the replay and empties the log |
| Wal.Wal.LogImages | src/db.rs:992-1015 | logs one entry for each staged page, succeeding exactly when the log has room for all; a log that runs full keeps those that fitted |
| Wal.Durable.CommitWrite | src/db.rs:972-1019 | answers ok exactly when the page count fits and, with logging, the log has room for the staged pages; then the log is the old one followed by an entry for each staged page, and the cache stays recoverable; without logging the log is as it was |
| Wal.Durable.Checkpoint | src/file.rs:186-212 | the file equals the cache and the log is empty |
| Wal.Durable.CrashAndOpen | src/db.rs:862-885 | losing the cache and opening again brings it back |
| Schema.EvolveKeepsSound | src/table.rs:124-168 | an operation keeps the name map exact unless it adds a column born dropped or one past 65536 slots |
| Schema.IdsNeverReused | src/table.rs:124-168 | over any run no two slots share an id exactly up to 65536 slots; up to there slots stay and the map names exactly the live columns |
| Schema.ReusedAtLimit | src/table.rs:124-151 | the 65537th column has the id of the first, reads its values, and dropping it drops that one |
| Schema.ReadsOwnSlotExactly | src/db.rs:176-216 | all rows read a column from its own slot exactly when the slot is below 65536 |
| Schema.OldRowsReadById | src/db.rs:176-216 | within 65536 slots an older row read by a live name gives the value under that id or the default |
| Schema.ReaddNeverRevives | src/table.rs:136-154 | after drop and re-add all older rows show only the new default exactly when there were fewer than 65536 slots |
| Schema.IndexTypeAfterNaming | src/db.rs:1073-1086 | after an addition or a rename the type found is right exactly when no earlier slot had the name or the first that had it has the same type |
| Schema.IndexTypeElsewhere | src/db.rs:1073-1086 | no operation changes whether the type found under another live name is right |
| Schema.IndexTypeAfterReadd | src/db.rs:1073-1086 | after drop and re-add the type found is right exactly when the first column of the name has the new type |
| Schema.IndexTypeWrong | src/db.rs:1073-1086 | a name dropped and re-added twice, and a name taken over by a rename, find a wrong type |
| Schema.MapAndGetAgree | src/table.rs:78-89 | a new table's map and its rows agree on a name exactly when one live column has it |
| Schema.TableMeta.constructor | src/table.rs:78-104 | names and definitions start in step; with at most 65536 columns the map is exact exactly when live names are distinct |
| Schema.TableMeta.AddColumn | src/table.rs:124-134 | appends a column under its 16-bit id; the map stays exact exactly when it is not born dropped and an id is left |
| Schema.TableMeta.DropColumn | src/table.rs:141-151 | tombstones the slot the map gives and frees the name; keeps an exact map exact |
| Schema.TableMeta.RenameColumn | src/table.rs:156-168 | renames the slot the map gives, id kept; keeps an exact map exact |
| Schema.TableMeta.TryAdd | src/db.rs:2280-2328 | accepts exactly a nonempty name without zero character that no live column has, nullable or with a default unless the table is empty; appends the column under its 16-bit id, a refusal changes nothing |
| Schema.TableMeta.TryRename | src/db.rs:2340-2404 | accepts exactly a live column and a good name no live column has; renames it and fixes the index definitions |
| Schema.TableMeta.TryDrop | src/db.rs:2414-2456 | accepts exactly live columns that no index names; the name is free afterwards |
| Schema.TableMeta.Get | src/db.rs:176-216 | the positional search gives the live column's value or default, the rowid under "_id", nothing under another name |
| Filters.RawAgrees | src/filter.rs:119-235 | whenever a raw comparison decides, it decides as the decoded value would |
| Filters.OperatorsMean | src/filter.rs:87-110 | each of the six operators as a relation of the two values: below, equal, above, or not comparable |
| Filters.IntegerOperators | src/filter.rs:56-110 | the six operators on integers are <, <=, >, >=, == and != |
| Filters.TextOperators | src/filter.rs:56-110 | the six operators on text follow the order of bytes |
| Filters.NullAndMixedOperators | src/filter.rs:56-110 | null is below every value, false below true, and values of different types pass no comparison, not even that for difference |
| Filters.InMeans | src/filter.rs:112-116 | a list holds exactly when some element is equal to the value |
| Filters.MatchesMeets | src/filter.rs:56-82 | a filter of any kind holds of a value exactly when the value meets the comparison, or is in the list |
| Filters.EvalFilterRawIn | src/filter.rs:176-220 | the list form on raw bytes, giving up at the first element of another type |
| Filters.FilterMatchesRow | src/db.rs:45-83 | a filter on a row holds exactly when the value read from the column compares as the operator says; for two integers that is the comparison of the numbers, and a list filter holds exactly when an element is equal |
| IndexedTable.RowAdded | src/db.rs:1062-1109 | a new row's key is absent and adding it keeps the index exact |
| IndexedTable.RowRemoved | src/db.rs:1062-1109 | removing a row's key keeps the index exact for the others |
| IndexedTable.KeysSortRows | src/db.rs:1062-1109 | a row has a key exactly when no indexed column is null; keys sort by the indexed columns in turn and then by rowid, in which they end |
| IndexedTable.MergeReads | src/db.rs:1490-1507 | the merged row has in each column the value of the last field naming it, else what the row had, and stays in id order |
| IndexedTable.Table.Insert | src/db.rs:1291-1362 | every index stays exact, the row is added under a fresh id, the next one to hand out |
| IndexedTable.Table.Update | src/db.rs:1462-1533 | every index stays exact; the new row has in each column the last value the fields name for it, else the old one |
| IndexedTable.Table.Delete | src/db.rs:1536-1587 | every index stays exact, the row is gone |
| IndexedTable.Table.DeleteWhere | src/db.rs:2727-2749 | every index stays exact, exactly the matching rows are gone and counted |
| IndexedTable.Table.UpdateWhere | src/db.rs:2634-2669 | every index stays exact, exactly the matching rows are updated and counted |
| IndexFind.MatchingIsHaving | src/db.rs:1659-1687 | the keys with a value's prefix, in order, are the keys of the rows with the value in rowid order |
| IndexFind.FindByIndex | src/db.rs:1613-1729 | finding by index gives the rows that have the value, in rowid order, from the offset on, at most the limit (4294967295 when missing), and the number of all of them exactly when asked for |
| IndexFind.FindByScan | src/db.rs:1730-1826 | a walk along the leaves gives the same of the rows whose value is equal to the one sought |
| IndexFind.FindBothWays | src/db.rs:1613-1826 | on the same table both ways give the same rows, order, page and total, those of the rows with the value |
| IndexFind.ScanFiltered | src/btree.rs:278-379 | the leaf walk gives, in rowid order from the offset on and within the limit, the rows whose column compares as the operator says, and their number when not stopped early; the cycle guard never fires |
| IndexFind.CountByIndex | src/db.rs:2054-2066 | the number of rows with the value, from the index |
| IndexFind.CountFiltered | src/btree.rs:382-440 | the number of rows whose column compares as the operator says, from a leaf walk |
| Unique.ScanMeetsTuple | src/db.rs:3762-3775 | a prefix scan meets a key exactly when a row has the tuple |
| Unique.CommittedHas | src/db.rs:3762-3775 | the prefix scan of the stored committed index tree meets a key exactly when a committed row has the tuple |
| Unique.UniqueTx.Enforce | src/db.rs:3717-3822 | accepts and records exactly rows none of whose tuples without null is in a committed row or recorded by this transaction; names the first index that has one |
| Unique.UniqueTx.Insert | src/db.rs:3851-3999 | inserts exactly when the id is free and no unique index has a tuple of the row, names the first that has; what is recorded and which rows there are afterwards is exact; no index ever holds a tuple twice |
| Unique.UniqueTx.InsertMany | src/db.rs:4689-4696 | ok exactly when every row in its turn can be taken; the rows before the first refused one are there under consecutive ids and no other row changes |
| Unique.UniqueTx.Delete | src/db.rs:4261-4332 | exactly the row is gone and uniqueness is kept |
| Unique.UniqueTx.Commit | src/db.rs:4772-4863 | the committed rows become the overlay, still unique |

## Left out

- Files, fsync, memory maps, OS locks and the async runtime: they become page maps, a log sequence and a gate token.
- Encryption, page magic and CRC: pages are intact and plaintext, and the checksum bytes are an opaque number.
- A crash in the middle of one commit's log appends and recovery of table roots: redo is stated at page level between commits.
- Ungated concurrent transactions and readers during a commit: the program promises no serialisation there. Readers of the model read through a guard; with nothing staged that is the committed file.
- Error exits that drop a guard without discard, such as a failing multi-insert outside a transaction.
- Boolean and blob indexes, NaN and integer against real comparison: the conversions round in floating point, so `CrossNumeric` and `Converted` pairs are excluded.
- The rowid extraction that assumes 16-byte keys for multi-column indexes led by an integer or a real.
- Unknown columns, null filter values and a limit together with further filters on the index path.
- The byte images of index leaves and branches as whole pages: leaves use the image of `PageImage` with entries for rows, branch entries are covered one by one (`IndexTree.BranchKeepsKey`).
- Raw-byte filtering of overflow rows and column defaults in filtered scans: the rows a filtered scan meets are stored whole, and an absent column is null.
- Vector search, listing functions, benches and error texts.
- BTreeReader.BTreeReader.ReassembleRow: a chain page that is not an overflow page is an error of the model, where the program reads its bytes.
- BTreeWriter.BTreeWriter.InsertRoot: when page numbers run out or a page overruns in the middle of an insertion, what has been staged by then is not described, only that the guard is sound. A transaction keeps what was staged in its private pages (src/db.rs:3654-3660), so going on with it after such a failure is outside the model.
- BTreeBulk.BulkWriter.UpdateMatching: the updater is an arbitrary function here, its rowid-preservation is proved for patches in `RowCodec.PatchKeepsRowid`.
- IndexTree.IndexRunRefinesSet: insertion of a key already present is not covered; the program does not check for it and never does it.
- Transaction.AcidTransaction.Insert: tables without indexes; index roots in the delta, unique checks and the row codec are covered apart (`IndexedTable`, `Unique`, `RowCodec`).
- Transaction.AcidTransaction.RecordInsert: the delta's index roots stay empty, as the table has no index.
- Unique.UniqueTx.Insert: the row trees of the overlay are a map here; the committed indexes are stored trees.
- IndexedTable.Table.Insert: rows are a map and index trees are sets here, as the tree runs refine them; the size limit on rows is left out.
- Gate.GatedRunsAreSerial: a write operation is any function of the view it runs on; operations that create or drop tables inside a transaction are not covered.
- Counters.CountersSumUp: real counters are left out, their addition rounds.
- Counters.UpsertAdds: keys that put an integer against a real are left out, that comparison rounds; fields set beside the counter are other columns than the key's and the counter.
- Updates under unique indexes: the program does not check them and they are not part of these runs.
- The fallback of the bulk update that decodes and re-encodes a row whose patch failed.
- `Row::columns`, sorting of results and multi-filter predicates.
- RowCodec.DecodeRow, and the other readers of rows: slices past the end of malformed rows panic in the program; the model reports an error.
