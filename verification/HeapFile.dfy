/** The table heap: a chain of slotted pages, where its end is, and the hint that says whether a
    walk along it can find a free slot. */
module HeapFile {
  import opened Pages
  import opened SlottedPage

  datatype Heap = Heap(
    pages: map<PageId, Page>,
    first: PageId,
    last: PageId,
    mayHaveFreeSlots: bool,
    chain: seq<PageId>,
    fm: Format)

  ghost predicate IsHeapPage(h: Heap, p: PageId) {
    p in h.pages && h.pages[p].HeapPage?
  }

  /** The i-th page of the chain is a sound heap page that names the next. While the hint is off
      it has no free slot, and unless it is the last it has no room for another. */
  ghost predicate HeapLink(h: Heap, i: nat)
    requires i < |h.chain|
  {
    var p := h.chain[i];
    && p != 0 && IsHeapPage(h, p)
    && h.pages[p].nextHeap == NextIn(h.chain, i + 1)
    && PageOK(h.fm, h.pages[p].body)
    && (!h.mayHaveFreeSlots ==> h.pages[p].body.freeHead == SLOT_NONE)
    && (i + 1 < |h.chain| ==> !HasRoom(h.fm, h.pages[p].body))
  }

  ghost predicate Distinct(chain: seq<PageId>) {
    forall i, j :: 0 <= i < j < |chain| ==> chain[i] != chain[j]
  }

  ghost predicate HeapOK(h: Heap) {
    && h.chain != [] && h.first == h.chain[0] && h.last == h.chain[|h.chain| - 1]
    && Distinct(h.chain)
    && (forall i {:trigger HeapLink(h, i)} :: 0 <= i < |h.chain| ==> HeapLink(h, i))
    && (forall p {:trigger IsHeapPage(h, p)} :: IsHeapPage(h, p) ==> p in h.chain)
  }

  ghost predicate HasRowAt(h: Heap, ref: RowRef, row: Bytes) {
    IsHeapPage(h, ref.pageId) && HasRow(h.fm, h.pages[ref.pageId].body, ref.slotId, row)
  }

  ghost predicate LiveAt(h: Heap, ref: RowRef) {
    IsHeapPage(h, ref.pageId) && Live(h.pages[ref.pageId].body, ref.slotId)
  }

  /** Every other place holds the row it held, or none as before. */
  ghost predicate SameRowsBut(h: Heap, h': Heap, ref: RowRef) {
    forall r, row {:trigger HasRowAt(h, r, row)} {:trigger HasRowAt(h', r, row)} ::
      r != ref ==> (HasRowAt(h, r, row) <==> HasRowAt(h', r, row))
  }

  lemma {:induction false} LinkOf(h: Heap, p: PageId) returns (i: nat)
    requires HeapOK(h) && IsHeapPage(h, p)
    ensures i < |h.chain| && h.chain[i] == p && HeapLink(h, i)
  {
    i :| 0 <= i < |h.chain| && h.chain[i] == p;
  }

  lemma {:induction false} ChainNonzero(h: Heap)
    requires HeapOK(h)
    ensures forall i :: 0 <= i < |h.chain| ==> h.chain[i] != 0
  {
    forall i | 0 <= i < |h.chain|
      ensures h.chain[i] != 0
    {
      assert HeapLink(h, i);
    }
  }

  lemma {:induction false} LastIsHeapPage(h: Heap)
    requires HeapOK(h)
    ensures h.last != 0 && IsHeapPage(h, h.last) && PageOK(h.fm, h.pages[h.last].body)
  {
    assert HeapLink(h, |h.chain| - 1);
  }

  /** A live slot holds a row. */
  lemma {:induction false} LiveHasRow(h: Heap, ref: RowRef) returns (row: Bytes)
    requires HeapOK(h) && LiveAt(h, ref)
    ensures HasRowAt(h, ref, row) && |row| == h.fm.rowSize
  {
    var i := LinkOf(h, ref.pageId);
    ExtentInside(h.fm, h.pages[ref.pageId].body, ref.slotId);
    row := RowBytes(h.fm, h.pages[ref.pageId].body, ref.slotId);
  }

  /* ---------- which page takes the next row ---------- */

  function FirstWithFree(pages: map<PageId, Page>, chain: seq<PageId>): PageId {
    if chain == [] then 0
    else if chain[0] in pages && pages[chain[0]].HeapPage? && pages[chain[0]].body.freeHead != SLOT_NONE then chain[0]
    else FirstWithFree(pages, chain[1..])
  }

  /** The page an insert would take if it never heeded the hint: the last one if it can take the
      row, or else the first that has a free slot. */
  function Chosen(h: Heap): PageId {
    if h.last in h.pages && h.pages[h.last].HeapPage? && CanTake(h.fm, h.pages[h.last].body) then h.last
    else FirstWithFree(h.pages, h.chain)
  }

  lemma {:induction false} FirstWithFreeIs(pages: map<PageId, Page>, chain: seq<PageId>)
    ensures var p := FirstWithFree(pages, chain);
            p != 0 ==> p in chain && p in pages && pages[p].HeapPage? && pages[p].body.freeHead != SLOT_NONE
    ensures FirstWithFree(pages, chain) == 0 && 0 !in chain ==>
              forall p :: p in chain && p in pages && pages[p].HeapPage? ==> pages[p].body.freeHead == SLOT_NONE
  {
    if chain != [] {
      FirstWithFreeIs(pages, chain[1..]);
      assert forall p :: p in chain ==> p == chain[0] || p in chain[1..];
    }
  }

  /** The choice finds a page exactly when some page of the heap can take the row. */
  lemma {:induction false} ChosenIs(h: Heap)
    requires HeapOK(h)
    ensures Chosen(h) != 0 ==> IsHeapPage(h, Chosen(h)) && CanTake(h.fm, h.pages[Chosen(h)].body)
    ensures Chosen(h) == 0 <==> forall p :: IsHeapPage(h, p) ==> !CanTake(h.fm, h.pages[p].body)
  {
    FirstWithFreeIs(h.pages, h.chain);
    forall i | 0 <= i < |h.chain|
      ensures h.chain[i] != 0
    {
      assert HeapLink(h, i);
    }
    assert HeapLink(h, |h.chain| - 1);
    if Chosen(h) == 0 {
      forall p | IsHeapPage(h, p)
        ensures !CanTake(h.fm, h.pages[p].body)
      {
        var i := LinkOf(h, p);
      }
    }
  }

  /* ---------- changes to one page ---------- */

  /** One heap page has a new body that keeps its free-slot chain within what the hint allows. */
  lemma {:induction false} BodyWritten(h: Heap, p: PageId, body': Slotted, hint: bool) returns (h': Heap)
    requires HeapOK(h) && IsHeapPage(h, p) && PageOK(h.fm, body')
    requires HasRoom(h.fm, body') ==> HasRoom(h.fm, h.pages[p].body)
    requires h.mayHaveFreeSlots ==> hint
    requires !hint ==> body'.freeHead == SLOT_NONE
    ensures h' == h.(pages := h.pages[p := HeapPage(h.pages[p].nextHeap, body')], mayHaveFreeSlots := hint)
    ensures HeapOK(h')
  {
    h' := h.(pages := h.pages[p := HeapPage(h.pages[p].nextHeap, body')], mayHaveFreeSlots := hint);
    forall i | 0 <= i < |h'.chain|
      ensures HeapLink(h', i)
    {
      assert HeapLink(h, i);
    }
    forall q | IsHeapPage(h', q)
      ensures q in h'.chain
    {
      assert IsHeapPage(h, q);
    }
  }

  lemma {:induction false} RowsWritten(h: Heap, h': Heap, p: PageId, s: nat)
    requires IsHeapPage(h, p) && IsHeapPage(h', p) && h'.fm == h.fm
    requires SameBut(h.fm, h.pages[p].body, h'.pages[p].body, s)
    requires forall q :: q != p ==> (IsHeapPage(h, q) <==> IsHeapPage(h', q))
    requires forall q :: q != p && IsHeapPage(h, q) && IsHeapPage(h', q) ==> h'.pages[q].body == h.pages[q].body
    ensures SameRowsBut(h, h', RowRef(p, s))
  {
    forall r, row | r != RowRef(p, s)
      ensures HasRowAt(h, r, row) <==> HasRowAt(h', r, row)
    {
      if r.pageId == p {
        assert HasRow(h.fm, h.pages[p].body, r.slotId, row) <==> HasRow(h.fm, h'.pages[p].body, r.slotId, row);
      }
    }
  }

  /* ---------- one more page ---------- */

  /** A fresh page b behind the last one, which names it. */
  function Extended(h: Heap, b: PageId, bytes: Bytes): Heap
    requires h.last in h.pages && h.pages[h.last].HeapPage?
  {
    h.(pages := h.pages[b := HeapPage(0, Empty(bytes))][h.last := HeapPage(b, h.pages[h.last].body)],
       last := b, chain := h.chain + [b])
  }

  lemma {:induction false} ExtendedOK(h: Heap, b: PageId, bytes: Bytes) returns (h': Heap)
    requires HeapOK(h) && b != 0 && !IsHeapPage(h, b) && |bytes| == h.fm.pageSize >= 16
    requires IsHeapPage(h, h.last) && !HasRoom(h.fm, h.pages[h.last].body)
    ensures h.last != b && h' == Extended(h, b, bytes) && HeapOK(h')
    ensures forall r, row :: HasRowAt(h, r, row) <==> HasRowAt(h', r, row)
  {
    var n := |h.chain|;
    assert HeapLink(h, n - 1);
    h' := Extended(h, b, bytes);
    EmptyOK(h.fm, bytes);
    forall i | 0 <= i < n
      ensures h.chain[i] != b
      ensures i < n - 1 ==> h.chain[i] != h.last
    {
      assert HeapLink(h, i);
    }
    forall i | 0 <= i < n + 1
      ensures HeapLink(h', i)
    {
      if i < n {
        assert HeapLink(h, i);
      }
    }
    forall q | IsHeapPage(h', q)
      ensures q in h'.chain
    {
      assert q == b || IsHeapPage(h, q);
      assert h'.chain[n] == b;
    }
    forall r, row
      ensures HasRowAt(h, r, row) <==> HasRowAt(h', r, row)
    {
      assert r.pageId == b ==> !Live(h'.pages[b].body, r.slotId);
    }
  }

  /* ---------- reading all rows ---------- */

  datatype HeapRow = HeapRow(ref: RowRef, row: Bytes)

  /** The rows of one page from slot s on. */
  ghost function PageRows(fm: Format, p: PageId, body: Slotted, s: nat): seq<HeapRow>
    requires PageOK(fm, body)
    decreases |body.slots| - s
  {
    if s >= |body.slots| then []
    else
      ExtentInside(fm, body, s);
      (if body.slots[s].alive then [HeapRow(RowRef(p, s), RowBytes(fm, body, s))] else [])
      + PageRows(fm, p, body, s + 1)
  }

  /** The rows of the heap from the i-th page of the chain on, in the order a scan meets them. */
  ghost function RowsFrom(h: Heap, i: nat): seq<HeapRow>
    requires HeapOK(h)
    decreases |h.chain| - i
  {
    if i >= |h.chain| then []
    else
      assert HeapLink(h, i);
      PageRows(h.fm, h.chain[i], h.pages[h.chain[i]].body, 0) + RowsFrom(h, i + 1)
  }

  ghost predicate Lists(out: seq<HeapRow>, ref: RowRef, row: Bytes) {
    HeapRow(ref, row) in out
  }

  /** The listed rows are those of the page from slot s on, and no place is listed twice. */
  ghost predicate ListsPage(out: seq<HeapRow>, fm: Format, p: PageId, body: Slotted, s: nat) {
    && (forall ref, row {:trigger Lists(out, ref, row)} ::
          Lists(out, ref, row) <==> ref.pageId == p && ref.slotId >= s && HasRow(fm, body, ref.slotId, row))
    && (forall i, j :: 0 <= i < j < |out| ==> out[i].ref != out[j].ref)
  }

  lemma {:induction false} SlotListed(rest: seq<HeapRow>, fm: Format, p: PageId, body: Slotted, s: nat) returns (all: seq<HeapRow>)
    requires PageOK(fm, body) && s < |body.slots| && ListsPage(rest, fm, p, body, s + 1)
    ensures body.slots[s].offset + fm.rowSize <= |body.bytes|
    ensures all == (if body.slots[s].alive then [HeapRow(RowRef(p, s), RowBytes(fm, body, s))] else []) + rest
    ensures ListsPage(all, fm, p, body, s)
  {
    ExtentInside(fm, body, s);
    var here := if body.slots[s].alive then [HeapRow(RowRef(p, s), RowBytes(fm, body, s))] else [];
    all := here + rest;
    forall k | 0 <= k < |rest|
      ensures rest[k].ref.slotId >= s + 1
    {
      assert Lists(rest, rest[k].ref, rest[k].row);
    }
    forall ref: RowRef, row
      ensures Lists(all, ref, row) <==> ref.pageId == p && ref.slotId >= s && HasRow(fm, body, ref.slotId, row)
    {
      assert Lists(all, ref, row) <==> HeapRow(ref, row) in here || Lists(rest, ref, row);
    }
  }

  lemma {:induction false} PageRowsAre(fm: Format, p: PageId, body: Slotted, s: nat)
    requires PageOK(fm, body)
    ensures ListsPage(PageRows(fm, p, body, s), fm, p, body, s)
    decreases |body.slots| - s
  {
    if s < |body.slots| {
      PageRowsAre(fm, p, body, s + 1);
      var all := SlotListed(PageRows(fm, p, body, s + 1), fm, p, body, s);
      assert PageRows(fm, p, body, s) == all;
    }
  }

  /** A scan of the heap meets every row exactly once. */
  lemma {:induction false} RowsFromAre(h: Heap, i: nat)
    requires HeapOK(h) && i <= |h.chain|
    ensures forall ref, row {:trigger Lists(RowsFrom(h, i), ref, row)} ::
              Lists(RowsFrom(h, i), ref, row) <==> ref.pageId in h.chain[i..] && HasRowAt(h, ref, row)
    ensures forall a, b :: 0 <= a < b < |RowsFrom(h, i)| ==> RowsFrom(h, i)[a].ref != RowsFrom(h, i)[b].ref
    decreases |h.chain| - i
  {
    if i < |h.chain| {
      assert HeapLink(h, i);
      var p := h.chain[i];
      PageRowsAre(h.fm, p, h.pages[p].body, 0);
      RowsFromAre(h, i + 1);
      var here, rest := PageRows(h.fm, p, h.pages[p].body, 0), RowsFrom(h, i + 1);
      assert RowsFrom(h, i) == here + rest;
      assert p !in h.chain[i + 1..];
      assert forall q :: q in h.chain[i..] <==> q == p || q in h.chain[i + 1..];
      forall k | 0 <= k < |here|
        ensures here[k].ref.pageId == p
      {
        assert Lists(here, here[k].ref, here[k].row);
      }
      forall k | 0 <= k < |rest|
        ensures rest[k].ref.pageId != p
      {
        assert Lists(rest, rest[k].ref, rest[k].row);
      }
      forall ref: RowRef, row
        ensures Lists(here + rest, ref, row) <==> ref.pageId in h.chain[i..] && HasRowAt(h, ref, row)
      {
        assert Lists(here + rest, ref, row) <==> Lists(here, ref, row) || Lists(rest, ref, row);
      }
    }
  }

  lemma {:induction false} AllRows(h: Heap)
    requires HeapOK(h)
    ensures forall ref, row {:trigger HasRowAt(h, ref, row)} {:trigger Lists(RowsFrom(h, 0), ref, row)} ::
              HasRowAt(h, ref, row) <==> Lists(RowsFrom(h, 0), ref, row)
    ensures forall a, b :: 0 <= a < b < |RowsFrom(h, 0)| ==> RowsFrom(h, 0)[a].ref != RowsFrom(h, 0)[b].ref
  {
    RowsFromAre(h, 0);
    assert h.chain[0..] == h.chain;
  }
}
