/** The pages of one database file as typed values, and what a heap page holds.

    A page is overwritten in place by giving its id a new value in the page map; what the
    program keeps in the first four bytes of a page (its type) is the constructor. */
module Pages {

  /** A page number. Zero is the header page and doubles as "no page" in every link. */
  type PageId = nat

  /** Index keys are 64-bit row ids. */
  const KEY_LIMIT: nat := 0x1_0000_0000_0000_0000

  /** Page numbers are 32-bit. */
  const PAGE_LIMIT: nat := 0x1_0000_0000

  type Byte = b: nat | b < 256

  type Bytes = seq<Byte>

  datatype RowRef = RowRef(pageId: PageId, slotId: nat)

  datatype LeafEntry = LeafEntry(key: nat, ref: RowRef)

  datatype Separator = Separator(key: nat, child: PageId)

  datatype Slot = Slot(offset: nat, alive: bool, nextFree: nat)

  /** A slotted page: the directory, the head of its chain of free slots, the number of bytes
      taken from the back of the page, and the bytes of the page themselves. */
  datatype Slotted = Slotted(slots: seq<Slot>, freeHead: nat, used: nat, bytes: Bytes)

  datatype Page =
    | Zeroed
    | FreePage(nextFree: PageId)
    | HeapPage(nextHeap: PageId, body: Slotted)
    | Leaf(parent: PageId, entries: seq<LeafEntry>, next: PageId, prev: PageId)
    | Internal(parent: PageId, leftmost: PageId, seps: seq<Separator>)

  predicate IsNode(page: Page) {
    page.Leaf? || page.Internal?
  }

  /** The write of a parent id into bytes 4..8 of a tree page. */
  function WithParent(page: Page, parent: PageId): Page {
    match page
    case Leaf(_, entries, next, prev) => Leaf(parent, entries, next, prev)
    case Internal(_, leftmost, seps) => Internal(parent, leftmost, seps)
    case _ => page
  }

  /** The i-th child of an internal node: the leftmost one, then the right child of each separator. */
  function Child(page: Page, i: nat): PageId
    requires page.Internal? && i <= |page.seps|
  {
    if i == 0 then page.leftmost else page.seps[i - 1].child
  }

  ghost predicate HasChild(page: Page, c: PageId) {
    page.Internal? && exists i :: 0 <= i <= |page.seps| && Child(page, i) == c
  }

  /** What follows at place i of a chain of pages: the next page, or zero at its end. */
  function NextIn(chain: seq<PageId>, i: nat): PageId {
    if i < |chain| then chain[i] else 0
  }

  /** Write s over buf from offset o on. */
  function Overwrite(buf: Bytes, o: nat, s: Bytes): (r: Bytes)
    requires o + |s| <= |buf|
    ensures |r| == |buf|
  {
    buf[..o] + s + buf[o + |s|..]
  }
}
