/** The table heap of an open file: finding room, inserting, deleting, overwriting, fetching and
    scanning rows, and finding the end of the chain again when a file is opened. */
module TableHeap {
  import opened Pages
  import opened Tree
  import opened SlottedPage
  import opened HeapFile
  import opened Store
  import opened TreeOverflow
  import opened TreeDescent

  /* ---------- a change to the heap leaves the tree alone ---------- */

  /** The tree pages are the same pages with the same contents, and no page is blank. */
  ghost predicate TreeKept(before: map<PageId, Page>, after: map<PageId, Page>) {
    && (forall p {:trigger before[p]} {:trigger after[p]} :: p in before && IsNode(before[p]) ==> p in after && after[p] == before[p])
    && (forall p {:trigger before[p]} {:trigger after[p]} :: p in after && IsNode(after[p]) ==> p in before && after[p] == before[p])
    && (forall p {:trigger after[p]} :: p in after ==> !after[p].Zeroed?)
  }

  lemma {:induction false} TreeStands(caps: Caps, f: File, f': File)
    requires FileOK(caps, f) && TreeKept(f.pages, f'.pages) && AllocatedFile(f')
    requires f'.root == f.root && f'.place == f.place && f'.rows == f.rows
    ensures FileOK(caps, f')
  {
    forall p | p in f.place
      ensures p in f.pages && IsNode(f.pages[p])
    {
      assert NodeOK(IndexOf(f), p);
    }
    ShapedAgree(IndexOf(f), IndexOf(f'));
    FilledAgree(caps, IndexOf(f), IndexOf(f'), 0);
  }

  lemma {:induction false} HeapPageWritten(f: File, p: PageId, page: Page) returns (f': File)
    requires AllocatedFile(f) && NoStrayPage(f, 0) && p in f.pages && f.pages[p].HeapPage? && page.HeapPage?
    ensures f' == f.(pages := f.pages[p := page]) && AllocatedFile(f') && TreeKept(f.pages, f'.pages)
  {
    f' := f.(pages := f.pages[p := page]);
    forall i | 0 <= i < |f.free|
      ensures FreeLink(f'.pages, f.free, i)
    {
      assert FreeLink(f.pages, f.free, i);
    }
  }

  lemma {:induction false} SameFreePages(pages: map<PageId, Page>, pages': map<PageId, Page>, nextPage: nat, freeHead: PageId, free: seq<PageId>)
    requires Allocated(pages, nextPage, freeHead, free) && pages'.Keys == pages.Keys
    requires forall p {:trigger pages[p]} {:trigger pages'[p]} :: p in pages && (pages[p].FreePage? || pages'[p].FreePage?) ==> pages'[p] == pages[p]
    ensures Allocated(pages', nextPage, freeHead, free)
  {
    forall i | 0 <= i < |free|
      ensures FreeLink(pages', free, i)
    {
      assert FreeLink(pages, free, i);
    }
  }

  lemma {:induction false} HeapPageStarted(f: File, g: File, b: PageId, bytes: Bytes, last: PageId) returns (g': File)
    requires AllocatedFile(f) && NoStrayPage(f, 0) && (b in f.pages ==> f.pages[b].FreePage?)
    requires AllocatedFile(g) && g.pages == f.pages[b := Zeroed]
    requires last in f.pages && f.pages[last].HeapPage?
    ensures g' == g.(pages := g.pages[b := HeapPage(0, Empty(bytes))][last := HeapPage(b, f.pages[last].body)])
    ensures AllocatedFile(g') && TreeKept(f.pages, g'.pages)
  {
    var pages' := g.pages[b := HeapPage(0, Empty(bytes))][last := HeapPage(b, f.pages[last].body)];
    g' := g.(pages := pages');
    forall p | p in pages' && p != b && p != last
      ensures pages'[p] == f.pages[p] == g.pages[p]
    {
    }
    SameFreePages(g.pages, pages', g.nextPage, g.freeHead, g.free);
  }

  /** The index and the heap are each sound. */
  ghost predicate Sound(db: Store)
    reads db`pages, db`nextPage, db`freeHead, db`free, db`root, db`place, db`rows, db`firstHeap, db`lastHeap, db`mayHaveFreeSlots, db`heap, db`rowSize
  {
    db.Valid() && HeapOK(db.HeapNow())
  }

  /* ---------- finding a page ---------- */

  method FindHeapPage(db: Store) returns (pid: PageId)
    requires Sound(db)
    modifies db`mayHaveFreeSlots
    ensures Sound(db)
    ensures pid == Chosen(old(db.HeapNow()))
  {
    ghost var h := db.HeapNow();
    LastIsHeapPage(h);
    ChainNonzero(h);
    if db.lastHeap != 0 {
      var tail := db.pages[db.lastHeap].body;
      if tail.freeHead != SLOT_NONE {
        return db.lastHeap;
      }
      if Available(Format(db.pageSize, db.rowSize), tail) >= (8 + db.rowSize) % U16 {
        return db.lastHeap;
      }
    }
    if !db.mayHaveFreeSlots {
      NoneFree(h, 0);
      return 0;
    }
    pid := db.firstHeap;
    ghost var i := 0;
    while pid != 0
      invariant 0 <= i <= |h.chain| && pid == NextIn(h.chain, i)
      invariant FirstWithFree(h.pages, h.chain[i..]) == FirstWithFree(h.pages, h.chain)
      invariant forall k :: 0 <= k < i ==> IsHeapPage(h, h.chain[k]) && h.pages[h.chain[k]].body.freeHead == SLOT_NONE
      decreases |h.chain| - i
    {
      assert HeapLink(h, i);
      if db.pages[pid].body.freeHead != SLOT_NONE {
        return;
      }
      pid := db.pages[pid].nextHeap;
      assert h.chain[i..][1..] == h.chain[i + 1..];
      i := i + 1;
    }
    HintOff(h);
    db.mayHaveFreeSlots := false;
  }

  lemma {:induction false} NoneFree(h: Heap, i: nat)
    requires HeapOK(h) && !h.mayHaveFreeSlots && i <= |h.chain|
    ensures FirstWithFree(h.pages, h.chain[i..]) == 0
    ensures i == 0 ==> h.chain[i..] == h.chain
    decreases |h.chain| - i
  {
    if i < |h.chain| {
      assert HeapLink(h, i);
      NoneFree(h, i + 1);
      assert h.chain[i..][1..] == h.chain[i + 1..];
    }
  }

  lemma {:induction false} HintOff(h: Heap)
    requires HeapOK(h)
    requires forall k :: 0 <= k < |h.chain| ==> IsHeapPage(h, h.chain[k]) && h.pages[h.chain[k]].body.freeHead == SLOT_NONE
    ensures HeapOK(h.(mayHaveFreeSlots := false))
  {
    var h' := h.(mayHaveFreeSlots := false);
    forall i | 0 <= i < |h'.chain|
      ensures HeapLink(h', i)
    {
      assert HeapLink(h, i);
    }
    forall p | IsHeapPage(h', p)
      ensures p in h'.chain
    {
      assert IsHeapPage(h, p);
    }
  }

  /* ---------- inserting ---------- */

  method GrowWrites(db: Store) returns (pid: PageId, bytes: Bytes)
    requires AllocatedFile(db.Now()) && db.lastHeap in db.pages && db.pages[db.lastHeap].HeapPage?
    requires db.freeHead != 0 || db.nextPage < PAGE_LIMIT
    modifies db`pages, db`nextPage, db`freeHead, db`free, db`lastHeap
    ensures AllocatedFile(db.Now().(pages := old(db.pages)[pid := Zeroed]))
    ensures pid != 0 && (pid in old(db.pages) ==> old(db.pages)[pid].FreePage?)
    ensures db.pages == old(db.pages)[pid := HeapPage(0, Empty(bytes))][old(db.lastHeap) := HeapPage(pid, old(db.pages)[old(db.lastHeap)].body)]
    ensures |bytes| == db.pageSize && db.lastHeap == pid && db.nextPage <= old(db.nextPage) + 1
  {
    pid := db.AllocPage();
    bytes := seq(db.pageSize, _ => 0);
    db.pages := db.pages[pid := HeapPage(0, Empty(bytes))];
    var prev := db.lastHeap;
    db.pages := db.pages[prev := HeapPage(pid, db.pages[prev].body)];
    db.lastHeap := pid;
  }

  lemma {:induction false} GrowthSound(caps: Caps, f: File, h: Heap, f': File, b: PageId, bytes: Bytes) returns (h': Heap)
    requires FileOK(caps, f) && HeapOK(h) && h.pages == f.pages && IsHeapPage(h, h.last)
    requires !HasRoom(h.fm, h.pages[h.last].body) && |bytes| == h.fm.pageSize >= 16
    requires b != 0 && (b in f.pages ==> f.pages[b].FreePage?)
    requires AllocatedFile(f'.(pages := f.pages[b := Zeroed]))
    requires f'.pages == f.pages[b := HeapPage(0, Empty(bytes))][h.last := HeapPage(b, f.pages[h.last].body)]
    requires f'.root == f.root && f'.place == f.place && f'.rows == f.rows
    ensures FileOK(caps, f') && h' == Extended(h, b, bytes) && h'.pages == f'.pages && HeapOK(h')
    ensures IsHeapPage(h', b) && h'.pages[b].body == Empty(bytes)
    ensures forall r, row :: HasRowAt(h', r, row) <==> HasRowAt(h, r, row)
  {
    var g := f'.(pages := f.pages[b := Zeroed]);
    var g' := HeapPageStarted(f, g, b, bytes, h.last);
    h' := ExtendedOK(h, b, bytes);
    assert g'.pages == f'.pages;
    TreeStands(caps, f, f');
  }

  /** A new page at the end of the chain. */
  method GrowHeap(db: Store) returns (pid: PageId)
    requires Sound(db) && 16 <= db.pageSize
    requires !HasRoom(Format(db.pageSize, db.rowSize), LastBody(db))
    requires db.freeHead != 0 || db.nextPage < PAGE_LIMIT
    modifies db`pages, db`nextPage, db`freeHead, db`free, db`lastHeap, db`heap
    ensures Sound(db) && pid == db.lastHeap && IsHeapPage(db.HeapNow(), pid)
    ensures db.pages[pid].body == Empty(db.pages[pid].body.bytes)
    ensures db.heap == old(db.heap) + [pid] && db.nextPage <= old(db.nextPage) + 1
    ensures forall r, row :: HasRowAt(db.HeapNow(), r, row) <==> HasRowAt(old(db.HeapNow()), r, row)
  {
    ghost var f, h := db.Now(), db.HeapNow();
    LastIsHeapPage(h);
    var bytes;
    pid, bytes := GrowWrites(db);
    db.heap := db.heap + [pid];
    ghost var h' := GrowthSound(db.caps, f, h, db.Now(), pid, bytes);
    assert db.HeapNow() == h';
  }

  ghost function LastBody(db: Store): Slotted
    requires Sound(db)
    reads db`pages, db`nextPage, db`freeHead, db`free, db`root, db`place, db`rows, db`firstHeap, db`lastHeap, db`mayHaveFreeSlots, db`heap, db`rowSize
  {
    LastIsHeapPage(db.HeapNow());
    db.pages[db.lastHeap].body
  }

  /** The slot the next row of a page goes to: the first free one, or else a new one. */
  function TakenSlot(body: Slotted): nat {
    if body.freeHead != SLOT_NONE then body.freeHead else |body.slots|
  }

  /** Put a row into a page that can take it: into its first free slot, or else into a new one. */
  method InsertIntoPage(db: Store, pid: PageId, row: Bytes) returns (slotId: nat)
    requires Sound(db) && IsHeapPage(db.HeapNow(), pid) && |row| == db.rowSize
    requires CanTake(Format(db.pageSize, db.rowSize), db.pages[pid].body)
    requires db.pageSize < U16 && db.rowSize + 8 < U16
    modifies db`pages
    ensures Sound(db)
    ensures !LiveAt(old(db.HeapNow()), RowRef(pid, slotId))
    ensures HasRowAt(db.HeapNow(), RowRef(pid, slotId), row)
    ensures SameRowsBut(old(db.HeapNow()), db.HeapNow(), RowRef(pid, slotId))
    ensures slotId == TakenSlot(old(db.pages)[pid].body)
  {
    ghost var f, h := db.Now(), db.HeapNow();
    var fm := Format(db.pageSize, db.rowSize);
    var body := db.pages[pid].body;
    ghost var i := LinkOf(h, pid);
    var body': Slotted;
    if body.freeHead != SLOT_NONE {
      slotId := body.freeHead;
      ghost var b := ReuseKeeps(fm, body, row);
      body' := Reuse(body, row);
    } else {
      slotId := |body.slots|;
      ghost var b := AppendKeeps(fm, body, row);
      body' := Append(fm, body, row);
      RoomShrinks(fm, body, body');
    }
    db.pages := db.pages[pid := HeapPage(db.pages[pid].nextHeap, body')];
    ghost var f' := HeapPageWritten(f, pid, db.pages[pid]);
    TreeStands(db.caps, f, db.Now());
    ghost var h' := BodyWritten(h, pid, body', h.mayHaveFreeSlots);
    RowsWritten(h, db.HeapNow(), pid, slotId);
  }

  lemma {:induction false} RoomShrinks(fm: Format, body: Slotted, body': Slotted)
    requires HasRoom(fm, body)
    ensures HasRoom(fm, body') ==> HasRoom(fm, body)
  {
  }

  /** Insert into the page that was found, or, should it be full by the time it is looked at again,
      into a fresh one. */
  method InsertAt(db: Store, found: PageId, row: Bytes) returns (ref: RowRef)
    requires Sound(db) && IsHeapPage(db.HeapNow(), found) && |row| == db.rowSize
    requires db.pageSize < U16 && db.rowSize + 24 <= db.pageSize
    requires CanTake(Format(db.pageSize, db.rowSize), db.pages[found].body) || !HasRoom(Format(db.pageSize, db.rowSize), LastBody(db))
    requires db.freeHead != 0 || db.nextPage < PAGE_LIMIT || CanTake(Format(db.pageSize, db.rowSize), db.pages[found].body)
    modifies db`pages, db`nextPage, db`freeHead, db`free, db`lastHeap, db`heap
    ensures Sound(db)
    ensures !LiveAt(old(db.HeapNow()), ref) && HasRowAt(db.HeapNow(), ref, row)
    ensures SameRowsBut(old(db.HeapNow()), db.HeapNow(), ref)
    ensures db.nextPage <= old(db.nextPage) + 1
    ensures CanTake(Format(db.pageSize, db.rowSize), old(db.pages)[found].body) ==>
              ref == RowRef(found, TakenSlot(old(db.pages)[found].body)) && db.nextPage == old(db.nextPage)
  {
    var fm := Format(db.pageSize, db.rowSize);
    var pid := found;
    ghost var h := db.HeapNow();
    while !CanTake(fm, db.pages[pid].body)
      invariant Sound(db) && IsHeapPage(db.HeapNow(), pid)
      invariant CanTake(fm, db.pages[pid].body)
             || (pid == found && !HasRoom(fm, LastBody(db)) && (db.freeHead != 0 || db.nextPage < PAGE_LIMIT))
      invariant db.nextPage <= old(db.nextPage) + 1
      invariant pid == found && !CanTake(fm, db.pages[pid].body) ==> db.HeapNow() == h && db.nextPage == old(db.nextPage)
      invariant CanTake(fm, old(db.pages)[found].body) ==>
                  pid == found && db.nextPage == old(db.nextPage) && db.pages[found] == old(db.pages)[found]
      invariant forall r, row :: HasRowAt(db.HeapNow(), r, row) <==> HasRowAt(h, r, row)
      decreases if CanTake(fm, db.pages[pid].body) then 0 else 1
    {
      pid := GrowHeap(db);
      FreshPageTakes(fm, db.pages[pid].body.bytes);
    }
    ghost var h1 := db.HeapNow();
    var slotId := InsertIntoPage(db, pid, row);
    ref := RowRef(pid, slotId);
    NoRowNotLive(h, h1, ref);
    SameThrough(h, h1, db.HeapNow(), ref);
  }

  lemma {:induction false} NoRowNotLive(h: Heap, h1: Heap, ref: RowRef)
    requires HeapOK(h)
    requires forall r, row :: HasRowAt(h1, r, row) <==> HasRowAt(h, r, row)
    ensures LiveAt(h, ref) ==> LiveAt(h1, ref)
  {
    if LiveAt(h, ref) {
      var row := LiveHasRow(h, ref);
      assert HasRowAt(h1, ref, row);
    }
  }

  lemma {:induction false} SameThrough(h: Heap, h1: Heap, h2: Heap, ref: RowRef)
    requires forall r, row :: HasRowAt(h1, r, row) <==> HasRowAt(h, r, row)
    requires SameRowsBut(h1, h2, ref)
    ensures SameRowsBut(h, h2, ref)
  {
  }

  /** Insert a row: it is found at the place that is returned, which was not live, and every other
      row is where it was. */
  method HeapInsert(db: Store, row: Bytes) returns (ref: RowRef)
    requires Sound(db) && |row| == db.rowSize
    requires db.pageSize < U16 && db.rowSize + 24 <= db.pageSize
    requires db.freeHead != 0 || db.nextPage < PAGE_LIMIT
    modifies db`pages, db`nextPage, db`freeHead, db`free, db`lastHeap, db`heap, db`mayHaveFreeSlots
    ensures Sound(db)
    ensures !LiveAt(old(db.HeapNow()), ref) && HasRowAt(db.HeapNow(), ref, row)
    ensures SameRowsBut(old(db.HeapNow()), db.HeapNow(), ref)
    ensures db.nextPage <= old(db.nextPage) + 1
    ensures Chosen(old(db.HeapNow())) != 0 ==>
              IsHeapPage(old(db.HeapNow()), Chosen(old(db.HeapNow()))) && db.nextPage == old(db.nextPage) &&
              ref == RowRef(Chosen(old(db.HeapNow())), TakenSlot(old(db.pages)[Chosen(old(db.HeapNow()))].body))
  {
    ghost var h := db.HeapNow();
    ChosenIs(h);
    var pid := FindHeapPage(db);
    ghost var h1 := db.HeapNow();
    LastIsHeapPage(h1);
    if pid == 0 {
      pid := GrowHeap(db);
      FreshPageTakes(Format(db.pageSize, db.rowSize), db.pages[pid].body.bytes);
    }
    ghost var h2 := db.HeapNow();
    assert forall r, row :: HasRowAt(h2, r, row) <==> HasRowAt(h1, r, row);
    assert forall r, row :: HasRowAt(h1, r, row) <==> HasRowAt(h, r, row);
    ref := InsertAt(db, pid, row);
    NoRowNotLive(h, h2, ref);
    SameThrough(h, h2, db.HeapNow(), ref);
  }

  /* ---------- deleting, overwriting, fetching ---------- */

  /** Delete the row of a slot. A slot that is not live is left alone. */
  method HeapDelete(db: Store, ref: RowRef) returns (rc: int)
    requires Sound(db) && IsHeapPage(db.HeapNow(), ref.pageId) && ref.slotId < |db.pages[ref.pageId].body.slots|
    modifies db`pages, db`mayHaveFreeSlots
    ensures Sound(db)
    ensures rc == if LiveAt(old(db.HeapNow()), ref) then 0 else -1
    ensures rc != 0 ==> db.pages == old(db.pages) && db.mayHaveFreeSlots == old(db.mayHaveFreeSlots)
    ensures !LiveAt(db.HeapNow(), ref) && SameRowsBut(old(db.HeapNow()), db.HeapNow(), ref)
    ensures rc == 0 ==> db.mayHaveFreeSlots
  {
    ghost var f, h := db.Now(), db.HeapNow();
    var pid := ref.pageId;
    var body := db.pages[pid].body;
    if !body.slots[ref.slotId].alive {
      return -1;
    }
    ghost var i := LinkOf(h, pid);
    ghost var b := BuryKeeps(h.fm, body, ref.slotId);
    var body' := Bury(body, ref.slotId);
    db.pages := db.pages[pid := HeapPage(db.pages[pid].nextHeap, body')];
    db.mayHaveFreeSlots := true;
    ghost var f' := HeapPageWritten(f, pid, db.pages[pid]);
    TreeStands(db.caps, f, db.Now());
    ghost var h' := BodyWritten(h, pid, body', true);
    RowsWritten(h, db.HeapNow(), pid, ref.slotId);
    rc := 0;
  }

  /** Write a row over a live one. */
  method HeapOverwrite(db: Store, ref: RowRef, row: Bytes)
    requires Sound(db) && LiveAt(db.HeapNow(), ref) && |row| == db.rowSize
    modifies db`pages
    ensures Sound(db)
    ensures HasRowAt(db.HeapNow(), ref, row) && SameRowsBut(old(db.HeapNow()), db.HeapNow(), ref)
  {
    ghost var f, h := db.Now(), db.HeapNow();
    var pid := ref.pageId;
    var body := db.pages[pid].body;
    ghost var i := LinkOf(h, pid);
    ghost var b := ReplaceKeeps(h.fm, body, ref.slotId, row);
    var body' := Replace(body, ref.slotId, row);
    db.pages := db.pages[pid := HeapPage(db.pages[pid].nextHeap, body')];
    ghost var f' := HeapPageWritten(f, pid, db.pages[pid]);
    TreeStands(db.caps, f, db.Now());
    ghost var h' := BodyWritten(h, pid, body', h.mayHaveFreeSlots);
    RowsWritten(h, db.HeapNow(), pid, ref.slotId);
  }

  method HeapFetch(db: Store, ref: RowRef) returns (row: Option<Bytes>)
    requires Sound(db) && IsHeapPage(db.HeapNow(), ref.pageId) && ref.slotId < |db.pages[ref.pageId].body.slots|
    ensures row.Some? <==> LiveAt(db.HeapNow(), ref)
    ensures row.Some? ==> HasRowAt(db.HeapNow(), ref, row.value) && |row.value| == db.rowSize
  {
    ghost var h := db.HeapNow();
    var body := db.pages[ref.pageId].body;
    if !body.slots[ref.slotId].alive {
      return None;
    }
    ghost var r := LiveHasRow(h, ref);
    return Some(RowBytes(Format(db.pageSize, db.rowSize), body, ref.slotId));
  }

  /* ---------- scanning ---------- */

  /** Says, of the rows delivered so far, whether there should be more. */
  type RowReceiver = seq<HeapRow> -> bool

  ghost predicate WantsMore(more: RowReceiver, out: seq<HeapRow>) {
    forall n {:trigger out[..n]} :: 1 <= n <= |out| ==> more(out[..n])
  }

  lemma {:induction false} WantsMoreStep(more: RowReceiver, out: seq<HeapRow>, r: HeapRow)
    requires WantsMore(more, out)
    ensures forall n :: 1 <= n < |out + [r]| ==> more((out + [r])[..n])
    ensures more(out + [r]) ==> WantsMore(more, out + [r])
  {
    var s := out + [r];
    forall n | 1 <= n < |s|
      ensures more(s[..n])
    {
      assert s[..n] == out[..n];
    }
    assert s[..|s|] == s;
  }

  /** The rows of all, in order, up to the first after which no more are wanted. */
  ghost predicate Scanned(out: seq<HeapRow>, all: seq<HeapRow>, more: RowReceiver) {
    && out <= all
    && (forall n :: 1 <= n < |out| ==> more(out[..n]))
    && (|out| < |all| ==> out != [] && !more(out))
  }

  method ScanPage(db: Store, p: PageId, more: RowReceiver, out: seq<HeapRow>, ghost all: seq<HeapRow>, ghost rest: seq<HeapRow>)
    returns (r: seq<HeapRow>, stopped: bool)
    requires Sound(db) && IsHeapPage(db.HeapNow(), p) && WantsMore(more, out)
    requires PageOK(Format(db.pageSize, db.rowSize), db.pages[p].body)
    requires all == out + PageRows(Format(db.pageSize, db.rowSize), p, db.pages[p].body, 0) + rest
    ensures stopped ==> Scanned(r, all, more)
    ensures !stopped ==> all == r + rest && WantsMore(more, r)
  {
    var fm := Format(db.pageSize, db.rowSize);
    var body := db.pages[p].body;
    r, stopped := out, false;
    var s := 0;
    while s < |body.slots|
      invariant 0 <= s <= |body.slots| && WantsMore(more, r)
      invariant all == r + PageRows(fm, p, body, s) + rest
    {
      ExtentInside(fm, body, s);
      if body.slots[s].alive {
        var row := HeapRow(RowRef(p, s), RowBytes(fm, body, s));
        WantsMoreStep(more, r, row);
        assert all == (r + [row]) + PageRows(fm, p, body, s + 1) + rest;
        r := r + [row];
        if !more(r) {
          stopped := true;
          return;
        }
      } else {
        assert PageRows(fm, p, body, s) == PageRows(fm, p, body, s + 1);
      }
      s := s + 1;
    }
    assert PageRows(fm, p, body, s) == [];
  }

  /** The rows still to come are those of the next page and then the rest. */
  lemma {:induction false} RowsStep(h: Heap, i: nat, out: seq<HeapRow>) returns (rest: seq<HeapRow>)
    requires HeapOK(h) && i < |h.chain|
    ensures HeapLink(h, i) && rest == RowsFrom(h, i + 1)
    ensures out + RowsFrom(h, i) == out + PageRows(h.fm, h.chain[i], h.pages[h.chain[i]].body, 0) + rest
  {
    assert HeapLink(h, i);
    rest := RowsFrom(h, i + 1);
  }

  /** A scan delivers the live rows in the order of the chain and the directories. */
  method HeapScan(db: Store, more: RowReceiver) returns (out: seq<HeapRow>)
    requires Sound(db)
    ensures Scanned(out, RowsFrom(db.HeapNow(), 0), more)
  {
    ghost var h := db.HeapNow();
    ghost var all := RowsFrom(h, 0);
    out := [];
    var pid := db.firstHeap;
    ghost var i := 0;
    ChainNonzero(h);
    while pid != 0
      invariant 0 <= i <= |h.chain| && pid == NextIn(h.chain, i)
      invariant all == out + RowsFrom(h, i) && WantsMore(more, out)
      decreases |h.chain| - i
    {
      ghost var rest := RowsStep(h, i, out);
      var stopped;
      out, stopped := ScanPage(db, pid, more, out, all, rest);
      if stopped {
        return;
      }
      pid := db.pages[pid].nextHeap;
      i := i + 1;
    }
  }

  /* ---------- opening a file again ---------- */

  /** One of the first n pages of the chain has a free slot. */
  ghost predicate FreeAmong(h: Heap, n: nat) {
    exists k :: 0 <= k < n && k < |h.chain| && IsHeapPage(h, h.chain[k]) && h.pages[h.chain[k]].body.freeHead != SLOT_NONE
  }

  /** Opening an existing file: the end of the chain and the hint are found by walking the chain.
      `was` is the heap as it stood when the file was closed. */
  method RecoverHeap(db: Store, ghost was: Heap)
    requires HeapOK(was) && db.HeapNow() == was.(last := db.lastHeap, mayHaveFreeSlots := db.mayHaveFreeSlots)
    modifies db`lastHeap, db`mayHaveFreeSlots
    ensures HeapOK(db.HeapNow()) && db.lastHeap == was.last
    ensures db.mayHaveFreeSlots <==> exists p :: IsHeapPage(was, p) && was.pages[p].body.freeHead != SLOT_NONE
    ensures db.mayHaveFreeSlots ==> was.mayHaveFreeSlots
    ensures Chosen(db.HeapNow()) == Chosen(was)
  {
    ChainNonzero(was);
    db.lastHeap := db.firstHeap;
    db.mayHaveFreeSlots := false;
    if db.lastHeap != 0 {
      var pid := db.lastHeap;
      ghost var i := 0;
      while pid != 0
        invariant 0 <= i <= |was.chain| && pid == NextIn(was.chain, i)
        invariant db.lastHeap == if i == 0 then db.firstHeap else was.chain[i - 1]
        invariant db.mayHaveFreeSlots <==> FreeAmong(was, i)
        decreases |was.chain| - i
      {
        assert HeapLink(was, i);
        if db.pages[pid].body.freeHead != SLOT_NONE {
          db.mayHaveFreeSlots := true;
        }
        db.lastHeap := pid;
        pid := db.pages[pid].nextHeap;
        i := i + 1;
      }
      assert i == |was.chain| && db.HeapNow() == was.(mayHaveFreeSlots := db.mayHaveFreeSlots);
    }
    Recovered(was, db.HeapNow());
  }

  lemma {:induction false} Recovered(was: Heap, h: Heap)
    requires HeapOK(was) && h == was.(mayHaveFreeSlots := h.mayHaveFreeSlots)
    requires h.mayHaveFreeSlots <==> FreeAmong(was, |was.chain|)
    ensures HeapOK(h) && Chosen(h) == Chosen(was)
    ensures h.mayHaveFreeSlots <==> exists p :: IsHeapPage(was, p) && was.pages[p].body.freeHead != SLOT_NONE
    ensures h.mayHaveFreeSlots ==> was.mayHaveFreeSlots
  {
    forall i | 0 <= i < |h.chain|
      ensures HeapLink(h, i)
    {
      assert HeapLink(was, i);
    }
    forall p | IsHeapPage(h, p)
      ensures p in h.chain
    {
      assert IsHeapPage(was, p);
    }
    forall p | IsHeapPage(was, p) && was.pages[p].body.freeHead != SLOT_NONE
      ensures h.mayHaveFreeSlots && was.mayHaveFreeSlots
    {
      var i := LinkOf(was, p);
    }
  }
}
