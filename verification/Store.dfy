/** The database file as the tree and the heap see it: pages by number, the header fields, and
    the list of free pages that runs through the pages themselves. */
module Store {
  import opened Pages
  import opened Tree
  import opened SlottedPage
  import opened HeapFile
  import opened Schema

  /** Pages 1 .. nextPage-1 exist, and the free ones form one chain from freeHead, each once. */
  ghost predicate Allocated(pages: map<PageId, Page>, nextPage: nat, freeHead: PageId, free: seq<PageId>) {
    && 1 <= nextPage
    && (forall p :: p in pages <==> 1 <= p < nextPage)
    && (forall i, j :: 0 <= i < j < |free| ==> free[i] != free[j])
    && (forall i {:trigger FreeLink(pages, free, i)} :: 0 <= i < |free| ==> FreeLink(pages, free, i))
    && freeHead == NextIn(free, 0)
    && (forall p :: p in pages && pages[p].FreePage? ==> p in free)
  }

  /** The i-th free page names the next one. */
  ghost predicate FreeLink(pages: map<PageId, Page>, free: seq<PageId>, i: nat)
    requires i < |free|
  {
    free[i] in pages && pages[free[i]] == FreePage(NextIn(free, i + 1))
  }

  lemma {:induction false} PopFree(pages: map<PageId, Page>, nextPage: nat, free: seq<PageId>)
    requires free != [] && Allocated(pages, nextPage, free[0], free)
    ensures Allocated(pages[free[0] := Zeroed], nextPage, NextIn(free, 1), free[1..])
  {
    var pages', free' := pages[free[0] := Zeroed], free[1..];
    assert FreeLink(pages, free, 0);
    forall i | 0 <= i < |free'|
      ensures FreeLink(pages', free', i)
    {
      assert FreeLink(pages, free, i + 1);
    }
    forall p | p in pages' && pages'[p].FreePage?
      ensures p in free'
    {
      var i :| 0 <= i < |free| && free[i] == p;
      assert free'[i - 1] == p;
    }
  }

  lemma {:induction false} PushFree(pages: map<PageId, Page>, nextPage: nat, freeHead: PageId, free: seq<PageId>, p: PageId)
    requires Allocated(pages, nextPage, freeHead, free) && p in pages && !pages[p].FreePage?
    ensures Allocated(pages[p := FreePage(freeHead)], nextPage, p, [p] + free)
  {
    var pages', free' := pages[p := FreePage(freeHead)], [p] + free;
    forall i | 0 <= i < |free'|
      ensures FreeLink(pages', free', i)
    {
      assert i > 0 ==> FreeLink(pages, free, i - 1);
    }
    forall i, j | 0 <= i < j < |free'|
      ensures free'[i] != free'[j]
    {
      assert FreeLink(pages, free, j - 1);
    }
  }

  /** Everything the tree has to do with: the pages, the header fields, and what they stand for. */
  datatype File = File(
    pages: map<PageId, Page>,
    nextPage: nat,
    freeHead: PageId,
    free: seq<PageId>,
    root: PageId,
    place: map<PageId, Place>,
    rows: map<nat, RowRef>)

  ghost function IndexOf(f: File): BTree {
    BTree(f.pages, f.root, f.place, f.rows)
  }

  ghost predicate AllocatedFile(f: File) {
    Allocated(f.pages, f.nextPage, f.freeHead, f.free) && f.nextPage <= PAGE_LIMIT
  }

  /** Every tree page on file belongs to the tree, but for b; no page is left blank. */
  ghost predicate NoStrayPage(f: File, b: PageId) {
    && (forall p {:trigger f.pages[p]} :: p in f.pages && IsNode(f.pages[p]) ==> p in f.place || p == b)
    && (forall p {:trigger f.pages[p]} :: p in f.pages ==> !f.pages[p].Zeroed?)
  }

  /** The index is a well-formed tree, its pages are all the tree pages there are, and the free
      pages are all on the free list. */
  ghost predicate FileOK(caps: Caps, f: File) {
    CapsOK(caps) && AllocatedFile(f) && WellFormed(caps, IndexOf(f)) && NoStrayPage(f, 0)
  }

  predicate Mutable(page: Page) {
    !page.FreePage? && !page.HeapPage?
  }

  /** Only pages that are neither free nor heap pages differ, and they become tree pages. */
  ghost predicate Rewrites(before: map<PageId, Page>, after: map<PageId, Page>) {
    && after.Keys == before.Keys
    && (forall p {:trigger after[p]} {:trigger before[p]} :: p in before ==>
          after[p] == before[p] || (Mutable(before[p]) && IsNode(after[p])))
  }

  /** The heap pages are the same pages with the same contents. */
  ghost predicate HeapKept(before: map<PageId, Page>, after: map<PageId, Page>) {
    && (forall p {:trigger before[p]} :: p in before && before[p].HeapPage? ==> p in after && after[p] == before[p])
    && (forall p {:trigger after[p]} :: p in after && after[p].HeapPage? ==> p in before && after[p] == before[p])
  }

  lemma {:induction false} RewritesKeep(before: map<PageId, Page>, after: map<PageId, Page>, nextPage: nat, freeHead: PageId, free: seq<PageId>)
    requires Rewrites(before, after)
    ensures HeapKept(before, after)
    ensures Allocated(before, nextPage, freeHead, free) ==> Allocated(after, nextPage, freeHead, free)
  {
    if Allocated(before, nextPage, freeHead, free) {
      forall i | 0 <= i < |free|
        ensures FreeLink(after, free, i)
      {
        assert FreeLink(before, free, i);
      }
    }
  }

  /** A page taken from the free list or from the end of the file, and writes to tree pages. */
  ghost predicate AllocAndRewrite(before: map<PageId, Page>, b: PageId, after: map<PageId, Page>) {
    (b in before ==> before[b].FreePage?) && Rewrites(before[b := Zeroed], after) && IsNode(after[b])
  }

  lemma {:induction false} AllocAndRewriteKeeps(f: File, x: PageId, b: PageId, after: map<PageId, Page>, place: map<PageId, Place>)
    requires AllocAndRewrite(f.pages, b, after)
    requires NoStrayPage(f, x) && f.place.Keys <= place.Keys && (x in f.pages && IsNode(f.pages[x]) ==> x in place)
    ensures HeapKept(f.pages, after)
    ensures NoStrayPage(f.(pages := after, place := place), b)
  {
    RewritesKeep(f.pages[b := Zeroed], after, 0, 0, []);
    var f' := f.(pages := after, place := place);
    forall p | p in f'.pages
      ensures IsNode(f'.pages[p]) ==> p in f'.place || p == b
      ensures !f'.pages[p].Zeroed?
    {
      if p != b {
        assert f.pages[b := Zeroed][p] == f.pages[p];
      }
    }
  }

  lemma {:induction false} RewritesKeepStray(f: File, x: PageId, after: map<PageId, Page>, place: map<PageId, Place>)
    requires Rewrites(f.pages, after)
    requires NoStrayPage(f, x) && f.place.Keys <= place.Keys && (x in f.pages && IsNode(f.pages[x]) ==> x in place)
    ensures NoStrayPage(f.(pages := after, place := place), 0)
  {
    forall p | p in after
      ensures IsNode(after[p]) ==> p in place
      ensures !after[p].Zeroed?
    {
      assert after[p] == f.pages[p] || IsNode(f.pages[p]);
    }
  }

  class Store {
    /** How many entries fit a leaf and an internal page. */
    const caps: Caps

    const pageSize: nat

    /* the pages, as read through the cache */
    var pages: map<PageId, Page>

    /* the header */
    var root: PageId
    var nextPage: nat
    var freeHead: PageId
    var firstHeap: PageId
    var rowSize: nat
    var columns: seq<Column>
    var nextId: nat
    var rowCount: nat

    /* kept beside the header while the file is open */
    var lastHeap: PageId
    var mayHaveFreeSlots: bool

    /* what the header and the pages stand for */
    ghost var free: seq<PageId>
    ghost var place: map<PageId, Place>
    ghost var rows: map<nat, RowRef>
    ghost var heap: seq<PageId>

    /** A new file: page 1 an empty heap page, page 2 an empty leaf as the root of the index. */
    constructor (caps: Caps, pageSize: nat)
      ensures this.caps == caps && this.pageSize == pageSize
      ensures pages.Keys == {1, 2} && pages[2] == Leaf(0, [], 0, 0)
      ensures pages[1].HeapPage? && pages[1].nextHeap == 0 && |pages[1].body.bytes| == pageSize && pages[1].body == Empty(pages[1].body.bytes)
      ensures nextPage == 3 && freeHead == 0 && free == [] && root == 2 && place == map[2 := Place(0, 0, KEY_LIMIT)] && rows == map[]
      ensures firstHeap == lastHeap == 1 && heap == [1] && !mayHaveFreeSlots
      ensures columns == [] && rowSize == 0 && nextId == 1 && rowCount == 0
    {
      this.caps, this.pageSize := caps, pageSize;
      pages := map[1 := HeapPage(0, Empty(seq(pageSize, _ => 0))), 2 := Leaf(0, [], 0, 0)];
      root, nextPage, freeHead, firstHeap := 2, 3, 0, 1;
      rowSize, columns, nextId, rowCount := 0, [], 1, 0;
      lastHeap, mayHaveFreeSlots := 1, false;
      free, place, rows, heap := [], map[2 := Place(0, 0, KEY_LIMIT)], map[], [1];
    }

    ghost function Now(): File
      reads this`pages, this`nextPage, this`freeHead, this`free, this`root, this`place, this`rows
    {
      File(pages, nextPage, freeHead, free, root, place, rows)
    }

    ghost function HeapNow(): Heap
      reads this`pages, this`firstHeap, this`lastHeap, this`mayHaveFreeSlots, this`heap, this`rowSize
    {
      Heap(pages, firstHeap, lastHeap, mayHaveFreeSlots, heap, Format(pageSize, rowSize))
    }

    ghost function Index(): BTree
      reads this`pages, this`nextPage, this`freeHead, this`free, this`root, this`place, this`rows
    {
      IndexOf(Now())
    }

    ghost predicate Valid()
      reads this`pages, this`nextPage, this`freeHead, this`free, this`root, this`place, this`rows
    {
      FileOK(caps, Now())
    }

    method AllocPage() returns (p: PageId)
      requires Allocated(pages, nextPage, freeHead, free)
      requires freeHead != 0 || nextPage < PAGE_LIMIT
      modifies this`pages, this`nextPage, this`freeHead, this`free
      ensures Allocated(pages, nextPage, freeHead, free)
      ensures p != 0 && pages == old(pages)[p := Zeroed]
      ensures p in old(pages) ==> old(pages)[p].FreePage?
      ensures nextPage <= old(nextPage) + 1
      ensures if old(freeHead) != 0
              then p == old(freeHead) && free == old(free)[1..] && nextPage == old(nextPage)
              else p == old(nextPage) && free == old(free) && nextPage == old(nextPage) + 1
    {
      if freeHead != 0 {
        p := freeHead;
        assert free[0] == p && FreeLink(pages, free, 0);
        freeHead := pages[p].nextFree;
        PopFree(pages, nextPage, free);
        free := free[1..];
        pages := pages[p := Zeroed];
      } else {
        p := nextPage;
        nextPage := nextPage + 1;
        pages := pages[p := Zeroed];
        forall i | 0 <= i < |free|
          ensures FreeLink(pages, free, i)
        {
          assert FreeLink(old(pages), free, i);
        }
      }
    }

    method FreePage(p: PageId)
      requires Allocated(pages, nextPage, freeHead, free)
      requires p in pages && !pages[p].FreePage?
      modifies this`pages, this`freeHead, this`free
      ensures Allocated(pages, nextPage, freeHead, free)
      ensures pages == old(pages)[p := Page.FreePage(old(freeHead))]
      ensures free == [p] + old(free) && freeHead == p
    {
      PushFree(pages, nextPage, freeHead, free, p);
      pages := pages[p := Page.FreePage(freeHead)];
      freeHead := p;
      free := [p] + free;
    }
  }
}
