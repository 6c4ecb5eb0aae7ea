/** The page file, and the write guard that stages changed pages over it. */
module Store {
  import opened Overflow
  import opened BTree

  /** Pages by kind; `Blank` is a freshly allocated page. */
  datatype Page =
    | LeafPage(rows: seq<Entry>, next: nat, prev: nat)
    | BranchPage(keys: seq<nat>, children: seq<nat>)
    | OverflowPage(over: OverPage)
    | Blank

  datatype Option<T> = None | Some(value: T)

  const MAX_PAGE_NO := 0xFFFF_FFFF

  class PageFile {
    var pages: map<nat, Page>
    var numPages: nat

    ghost predicate Valid()
      reads this
    {
      forall p :: p in pages <==> 0 <= p < numPages
    }

    constructor ()
      ensures Valid() && numPages == 0
    {
      pages, numPages := map[], 0;
    }

    /** The page, if the file has it. */
    method ReadPage(p: nat) returns (r: Option<Page>)
      requires Valid()
      ensures r.Some? <==> p in pages
      ensures r.Some? ==> r.value == pages[p]
    {
      r := if p >= numPages then None else Some(pages[p]);
    }

    /**
     * Recovery writes pages in place and extends the file when needed. It leaves a gap exactly
     * when it writes further than one page past the end.
     */
    method PutPageDirect(p: nat, page: Page)
      modifies this
      ensures pages == old(pages)[p := page]
      ensures numPages == if p >= old(numPages) then p + 1 else old(numPages)
      ensures old(Valid()) ==> (Valid() <==> p <= old(numPages))
    {
      ghost var end := numPages;
      if p >= numPages { numPages := p + 1; }
      pages := pages[p := page];
      assert old(Valid()) && p > end ==> end !in pages;
    }
  }

  /** Pages staged over a file of `from` pages, with numbers handed out up to `to`: all below `to`, none missing. */
  ghost predicate Covers(staged: map<nat, Page>, from: nat, to: nat) {
    && (forall p :: p in staged ==> 0 <= p < to)
    && (forall p :: from <= p < to ==> p in staged)
  }

  /**
   * Staged pages put over a file that has grown in the meantime: sound exactly when no page
   * had been allocated among them.
   */
  lemma GrownFile(staged: map<nat, Page>, from: nat, count: nat, grown: nat)
    requires Covers(staged, from, from + count) && grown > from
    ensures Covers(staged, grown, grown + count) <==> count == 0
  {
    if count > 0 { assert grown + count - 1 !in staged; }
  }

  class WriteGuard {
    const file: PageFile
    var dirty: map<nat, Page>
    var newPageCount: nat

    /** Staged pages lie below the staged end of the file, and every allocated page is staged. */
    ghost predicate Valid()
      reads this, file
    {
      file.Valid() && Covers(dirty, file.numPages, Next())
    }

    /** The page number the next allocation returns. */
    ghost function Next(): nat
      reads this, file
    {
      file.numPages + newPageCount
    }

    /** What reads through the guard see. */
    ghost function View(): map<nat, Page>
      reads this, file
    {
      file.pages + dirty
    }

    constructor (file: PageFile)
      requires file.Valid()
      ensures Valid() && this.file == file && dirty == map[] && newPageCount == 0
      ensures View() == file.pages && Next() == file.numPages
    {
      this.file, dirty, newPageCount := file, map[], 0;
    }

    method ReadPage(p: nat) returns (r: Option<Page>)
      requires Valid()
      ensures r == if p < Next() then Some(View()[p]) else None
      ensures r.Some? <==> p in View()
    {
      if p in dirty {
        r := Some(dirty[p]);
      } else {
        r := file.ReadPage(p);
      }
    }

    /** First write to a page copies it into the overlay. */
    method WritePage(p: nat) returns (ok: bool)
      requires Valid()
      modifies this
      ensures Valid() && ok == (p < Next()) && Next() == old(Next())
      ensures View() == old(View())
      ensures ok ==> p in dirty
    {
      ok := true;
      if p !in dirty {
        var current := file.ReadPage(p);
        match current
        case None => ok := false;
        case Some(page) => dirty := dirty[p := page];
      }
    }

    method AllocatePage() returns (r: Option<nat>)
      requires Valid()
      modifies this
      ensures Valid()
      ensures r == if old(Next()) > MAX_PAGE_NO then None else Some(old(Next()))
      ensures r.None? ==> View() == old(View()) && Next() == old(Next())
      ensures r.Some? ==> View() == old(View())[old(Next()) := Blank] && Next() == old(Next()) + 1
    {
      var p := file.numPages + newPageCount;
      if p > MAX_PAGE_NO {
        return None;
      }
      newPageCount := newPageCount + 1;
      dirty := dirty[p := Blank];
      return Some(p);
    }

    method PutPage(p: nat, page: Page)
      requires Valid() && p < Next()
      modifies this
      ensures Valid() && Next() == old(Next()) && View() == old(View())[p := page]
    {
      dirty := dirty[p := page];
    }

    /** Take a page for writing and replace its contents. */
    method Rewrite(p: nat, page: Page)
      requires Valid() && p < Next()
      modifies this
      ensures Valid() && Next() == old(Next()) && View() == old(View())[p := page]
    {
      var ok := WritePage(p);
      dirty := dirty[p := page];
    }

    /**
     * Publish: the file becomes what the guard showed, and the staged pages are returned. The
     * last page number can be allocated, but the count of a file that full does not fit: the
     * program stops here exactly when no page number is left, and nothing is said of what it
     * leaves then.
     */
    method Commit() returns (images: Option<map<nat, Page>>)
      requires Valid()
      modifies this, file
      ensures images == if old(Next()) <= MAX_PAGE_NO then Some(old(dirty)) else None
      ensures images.Some? ==>
        && file.pages == old(View()) && file.numPages == old(Next())
        && Valid() && dirty == map[] && newPageCount == 0 && View() == old(View())
    {
      if file.numPages + newPageCount > MAX_PAGE_NO {
        return None;
      }
      images := Some(dirty);
      file.pages := file.pages + dirty;
      file.numPages := file.numPages + newPageCount;
      dirty, newPageCount := map[], 0;
    }

    method Discard()
      requires file.Valid()
      modifies this
      ensures Valid() && dirty == map[] && newPageCount == 0 && View() == file.pages
    {
      dirty, newPageCount := map[], 0;
    }

    /** Pages already staged win over injected ones. */
    method InjectDirty(pages: map<nat, Page>)
      modifies this
      ensures dirty == pages + old(dirty) && newPageCount == old(newPageCount)
      ensures View() == (file.pages + pages) + old(dirty)
    {
      dirty := pages + dirty;
    }

    method DrainDirty() returns (pages: map<nat, Page>)
      modifies this
      ensures pages == old(dirty) && dirty == map[] && newPageCount == old(newPageCount)
      ensures View() == file.pages && View() + pages == old(View())
    {
      pages, dirty := dirty, map[];
    }

    method SetNewPageCount(count: nat)
      modifies this
      ensures newPageCount == count && dirty == old(dirty)
    {
      newPageCount := count;
    }
  }
}
