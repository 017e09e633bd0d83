/** Creating a database, creating its table, and dropping it. */
module Tables {
  import opened Pages
  import opened Tree
  import opened SlottedPage
  import opened HeapFile
  import opened Store
  import opened TableHeap
  import opened Database
  import S = Schema

  /* ---------- an empty tree and an empty heap ---------- */

  const EMPTY_LEAF := Leaf(0, [], 0, 0)

  lemma {:induction false} EmptyTree(caps: Caps, f: File, b: PageId) returns (f': File)
    requires CapsOK(caps) && b != 0 && b in f.pages && f.pages[b] == EMPTY_LEAF && AllocatedFile(f)
    requires forall p {:trigger f.pages[p]} :: p in f.pages && p != b ==> !IsNode(f.pages[p]) && !f.pages[p].Zeroed?
    ensures f' == f.(root := b, place := map[b := Place(0, 0, KEY_LIMIT)], rows := map[]) && FileOK(caps, f')
  {
    f' := f.(root := b, place := map[b := Place(0, 0, KEY_LIMIT)], rows := map[]);
    var t := IndexOf(f');
    forall p | p in t.place
      ensures NodeOK(t, p) && Filled(caps, t, p)
    {
      assert p == b;
      assert LeafOK(t, b);
    }
  }

  lemma {:induction false} EmptyHeap(h: Heap)
    requires h.chain == [h.first] && h.last == h.first && h.first != 0 && !h.mayHaveFreeSlots
    requires h.first in h.pages && h.pages[h.first].HeapPage? && h.pages[h.first].nextHeap == 0
    requires h.pages[h.first].body == Empty(h.pages[h.first].body.bytes) && |h.pages[h.first].body.bytes| == h.fm.pageSize >= 16
    requires forall p {:trigger IsHeapPage(h, p)} :: IsHeapPage(h, p) ==> p == h.first
    ensures HeapOK(h) && Blank(h) && forall ref :: !LiveAt(h, ref)
  {
    EmptyOK(h.fm, h.pages[h.first].body.bytes);
    assert HeapLink(h, 0);
    forall ref
      ensures !LiveAt(h, ref)
    {
      assert IsHeapPage(h, ref.pageId) ==> ref.pageId == h.first;
    }
  }

  lemma {:induction false} NothingFiled(h: Heap, cols: seq<Column>, nextId: nat)
    requires (cols == [] ==> Blank(h)) && 1 <= nextId <= SIGNED_LIMIT && forall ref :: !LiveAt(h, ref)
    ensures Filed(h, map[], cols, nextId, 0) && Contents(h, map[]) == map[]
  {
    forall ref
      ensures PlaceOK(h, map[], cols, ref)
    {
    }
  }

  /* ---------- a new database ---------- */

  /** A new file: page 1 an empty heap page, page 2 an empty leaf as the root of the index. */
  method CreateDatabase(caps: Caps, pageSize: nat) returns (db: Store)
    requires CapsOK(caps) && 24 <= pageSize < U16
    ensures fresh(db) && DbOK(db) && TableContents(db) == map[] && db.pageSize == pageSize
    ensures db.columns == [] && db.firstHeap == 1 && db.root == 2 && db.nextPage == 3 && db.nextId == 1 && db.freeHead == 0
  {
    db := new Store(caps, pageSize);
    EmptyDatabase(caps, db.Now(), db.HeapNow());
  }

  /** A file with one heap page, one leaf and otherwise free pages is a sound database without a table. */
  lemma {:induction false} EmptyDatabase(caps: Caps, f: File, h: Heap)
    requires CapsOK(caps) && AllocatedFile(f) && h.pages == f.pages && 24 <= h.fm.pageSize
    requires f.root != 0 && f.root in f.pages && f.pages[f.root] == EMPTY_LEAF
    requires f.place == map[f.root := Place(0, 0, KEY_LIMIT)] && f.rows == map[]
    requires h.first != 0 && h.first in h.pages && h.first != f.root && h.chain == [h.first] && h.last == h.first && !h.mayHaveFreeSlots
    requires h.pages[h.first] == HeapPage(0, Empty(Body(h.pages, h.first).bytes)) && |Body(h.pages, h.first).bytes| == h.fm.pageSize
    requires forall p {:trigger f.pages[p]} :: p in f.pages && p != h.first && p != f.root ==> f.pages[p].FreePage?
    ensures FileOK(caps, f) && HeapOK(h) && Filed(h, f.rows, [], 1, 0) && Contents(h, f.rows) == map[]
  {
    var f' := EmptyTree(caps, f, f.root);
    assert f' == f;
    EmptyHeap(h);
    NothingFiled(h, [], 1);
  }

  function Body(pages: map<PageId, Page>, p: PageId): Slotted {
    if p in pages && pages[p].HeapPage? then pages[p].body else Empty([])
  }

  /* ---------- CREATE TABLE ---------- */

  datatype ColumnDef = ColumnDef(name: string, kind: S.Kind, size: nat)

  const ID_COLUMN := S.Column("id", S.KBigint, 8, 0, true)

  function DeclaredFrom(defs: seq<ColumnDef>, i: nat): seq<Column>
    requires i <= |defs|
    decreases |defs| - i
  {
    if i == |defs| then []
    else (if defs[i].name == "id" then [] else [S.Column(defs[i].name, defs[i].kind, defs[i].size, 0, false)]) + DeclaredFrom(defs, i + 1)
  }

  /** The id first, then what was declared, but for a column of that name. */
  function Declared(defs: seq<ColumnDef>): seq<Column> {
    [ID_COLUMN] + DeclaredFrom(defs, 0)
  }

  predicate DefsOK(defs: seq<ColumnDef>, pageSize: nat) {
    && (forall i :: 0 <= i < |defs| ==> S.ColumnOK(S.Column(defs[i].name, defs[i].kind, defs[i].size, 0, false)))
    && S.EndOf(Declared(defs), |Declared(defs)|) + 24 <= pageSize
  }

  lemma {:induction false} DeclaredOK(defs: seq<ColumnDef>, i: nat)
    requires i <= |defs|
    requires forall i :: 0 <= i < |defs| ==> S.ColumnOK(S.Column(defs[i].name, defs[i].kind, defs[i].size, 0, false))
    ensures S.ColumnsOK(DeclaredFrom(defs, i))
    decreases |defs| - i
  {
    if i < |defs| {
      DeclaredOK(defs, i + 1);
    }
  }

  lemma {:induction false} LaidOutOK(cols: seq<Column>, pageSize: nat) returns (out: seq<Column>)
    requires cols != [] && IsIdColumn(cols[0]) && S.ColumnsOK(cols) && S.EndOf(cols, |cols|) + 24 <= pageSize < U16
    ensures out == S.Layout(cols, |cols|) && TableOK(out, S.EndOf(cols, |cols|) % U16, pageSize)
  {
    out := S.LayoutTiles(cols);
    S.LayoutAt(cols, |cols|, 0);
    forall i | 0 <= i < |cols|
      ensures S.ColumnOK(out[i])
    {
      S.LayoutAt(cols, |cols|, i);
    }
  }

  /** The column has the name, kind and size of the definition and is not the system's. */
  predicate Declares(d: ColumnDef, c: Column) {
    c.name == d.name && c.kind == d.kind && c.size == d.size && !c.isSystem
  }

  /** The columns come from the definitions from i on that are not named "id", each once and in order;
      `from` says which. */
  ghost predicate Selects(defs: seq<ColumnDef>, i: nat, from: seq<nat>, cols: seq<Column>) {
    && |from| == |cols|
    && (forall a, b :: 0 <= a < b < |from| ==> from[a] < from[b])
    && (forall a {:trigger from[a]} :: 0 <= a < |from| ==>
          i <= from[a] < |defs| && defs[from[a]].name != "id" && Declares(defs[from[a]], cols[a]))
    && (forall k :: i <= k < |defs| && defs[k].name != "id" ==> k in from)
  }

  lemma {:induction false} SelectsOneMore(defs: seq<ColumnDef>, i: nat, from: seq<nat>, cols: seq<Column>, c: Column)
    requires i < |defs| && Selects(defs, i + 1, from, cols)
    ensures defs[i].name == "id" ==> Selects(defs, i, from, cols)
    ensures defs[i].name != "id" && Declares(defs[i], c) ==> Selects(defs, i, [i] + from, [c] + cols)
  {
    var from', cols' := [i] + from, [c] + cols;
    forall a | 0 < a < |from'|
      ensures from'[a] == from[a - 1] && cols'[a] == cols[a - 1]
    {
    }
    forall k | k in from
      ensures k in from'
    {
      var a :| 0 <= a < |from| && from[a] == k;
      assert from'[a + 1] == k;
    }
    assert i in from';
  }

  lemma {:induction false} DeclaredAre(defs: seq<ColumnDef>, i: nat) returns (from: seq<nat>)
    requires i <= |defs|
    ensures Selects(defs, i, from, DeclaredFrom(defs, i))
    decreases |defs| - i
  {
    from := [];
    if i < |defs| {
      from := DeclaredAre(defs, i + 1);
      var c := S.Column(defs[i].name, defs[i].kind, defs[i].size, 0, false);
      SelectsOneMore(defs, i, from, DeclaredFrom(defs, i + 1), c);
      if defs[i].name == "id" {
        assert DeclaredFrom(defs, i) == DeclaredFrom(defs, i + 1);
      } else {
        from := [i] + from;
      }
    }
  }

  /** What CREATE TABLE makes of its definitions: the id as a system column of eight bytes, then those
      not named "id". */
  lemma {:induction false} CreatedColumns(defs: seq<ColumnDef>) returns (cols: seq<Column>, from: seq<nat>)
    ensures cols == S.Layout(Declared(defs), |Declared(defs)|) && |cols| == |from| + 1
    ensures cols[0].name == "id" && cols[0].kind == S.KBigint && cols[0].size == 8 && cols[0].isSystem
    ensures forall a, b :: 0 <= a < b < |from| ==> from[a] < from[b]
    ensures forall k: nat :: k in from <==> k < |defs| && defs[k].name != "id"
    ensures forall a {:trigger from[a]} :: 0 <= a < |from| ==> from[a] < |defs| && Declares(defs[from[a]], cols[a + 1])
  {
    var all, tail := Declared(defs), DeclaredFrom(defs, 0);
    assert all == [ID_COLUMN] + tail;
    from := DeclaredAre(defs, 0);
    cols := SameColumns(all);
    forall a | 0 <= a < |from|
      ensures Declares(defs[from[a]], cols[a + 1])
    {
      assert all[a + 1] == tail[a] && SameBut(cols[a + 1], all[a + 1]);
    }
    assert SameBut(cols[0], all[0]);
  }

  predicate SameBut(c: Column, d: Column) {
    c.name == d.name && c.kind == d.kind && c.size == d.size && c.isSystem == d.isSystem
  }

  /** Laying columns out changes nothing but their offsets. */
  lemma {:induction false} SameColumns(all: seq<Column>) returns (cols: seq<Column>)
    ensures cols == S.Layout(all, |all|) && |cols| == |all|
    ensures forall a {:trigger SameBut(cols[a], all[a])} :: 0 <= a < |all| ==> SameBut(cols[a], all[a])
  {
    cols := S.Layout(all, |all|);
    forall a | 0 <= a < |all|
      ensures SameBut(cols[a], all[a])
    {
      S.LayoutAt(all, |all|, a);
    }
  }

  /** The columns of a new table: the id, then the declared ones, laid out one behind the other. */
  method BuildColumns(defs: seq<ColumnDef>, ghost pageSize: nat) returns (out: seq<Column>, rowSize: nat)
    requires DefsOK(defs, pageSize) && pageSize < U16
    ensures out == S.Layout(Declared(defs), |Declared(defs)|) && out != [] && TableOK(out, rowSize, pageSize)
  {
    var cols := [ID_COLUMN];
    var i := 0;
    while i < |defs|
      invariant 0 <= i <= |defs| && cols + DeclaredFrom(defs, i) == Declared(defs)
    {
      if defs[i].name != "id" {
        cols := cols + [S.Column(defs[i].name, defs[i].kind, defs[i].size, 0, false)];
      }
      i := i + 1;
    }
    assert cols == Declared(defs);
    DeclaredOK(defs, 0);
    ghost var out' := LaidOutOK(cols, pageSize);
    out, rowSize := S.ComputeLayout(cols);
  }

  /** CREATE TABLE. There is one table at most. */
  method ExecCreateTable(db: Store, defs: seq<ColumnDef>) returns (ok: bool)
    requires DbOK(db) && DefsOK(defs, db.pageSize)
    modifies db`columns, db`rowSize
    ensures DbOK(db) && TableContents(db) == old(TableContents(db))
    ensures ok <==> old(db.columns) == []
    ensures !ok ==> db.columns == old(db.columns) && db.rowSize == old(db.rowSize)
    ensures ok ==> db.columns == S.Layout(Declared(defs), |Declared(defs)|) && TableContents(db) == map[]
  {
    if |db.columns| > 0 {
      return false;
    }
    ghost var h := db.HeapNow();
    var out, rowSize := BuildColumns(defs, db.pageSize);
    BlankFits(h, rowSize);
    db.columns := out;
    db.rowSize := rowSize;
    NothingFiled(db.HeapNow(), out, db.nextId);
    ok := true;
  }

  /** An empty heap takes rows of any size. */
  lemma {:induction false} BlankFits(h: Heap, rowSize: nat)
    requires HeapOK(h) && Blank(h) && h.fm.pageSize >= 16
    ensures var h' := h.(fm := Format(h.fm.pageSize, rowSize));
            HeapOK(h') && Blank(h') && (forall ref :: !LiveAt(h', ref)) && forall ref :: !LiveAt(h, ref)
  {
    var h' := h.(fm := Format(h.fm.pageSize, rowSize));
    assert HeapLink(h, 0);
    EmptyOK(h'.fm, h.pages[h.first].body.bytes);
    assert HeapLink(h', 0);
    forall p | IsHeapPage(h', p)
      ensures p == h.first
    {
      assert IsHeapPage(h, p);
    }
    assert h'.chain == [h'.first];
  }

  /* ---------- DROP TABLE ---------- */

  /** Every page that is not free goes to the free list. */
  method FreeAllPages(db: Store)
    requires AllocatedFile(db.Now())
    modifies db`pages, db`freeHead, db`free
    ensures AllocatedFile(db.Now())
    ensures forall p :: p in db.pages ==> db.pages[p].FreePage?
  {
    var i := 1;
    while i < db.nextPage
      invariant 1 <= i <= db.nextPage && AllocatedFile(db.Now())
      invariant forall p :: 1 <= p < i ==> p in db.pages && db.pages[p].FreePage?
    {
      if !db.pages[i].FreePage? {
        db.FreePage(i);
      }
      i := i + 1;
    }
  }

  /** With a free page there is a head of the free list. */
  lemma {:induction false} SomeFree(pages: map<PageId, Page>, nextPage: nat, freeHead: PageId, free: seq<PageId>, p: PageId)
    requires Allocated(pages, nextPage, freeHead, free) && p in pages && pages[p].FreePage?
    ensures freeHead != 0
  {
    assert p in free;
    assert FreeLink(pages, free, 0);
  }

  method TakeHeap(db: Store) returns (newHeap: PageId)
    requires AllocatedFile(db.Now()) && db.nextPage >= 3 && forall p :: p in db.pages ==> db.pages[p].FreePage?
    modifies db`pages, db`nextPage, db`freeHead, db`free
    ensures AllocatedFile(db.Now()) && db.nextPage == old(db.nextPage) && newHeap != 0 && newHeap in db.pages
    ensures |Body(db.pages, newHeap).bytes| == db.pageSize && db.pages[newHeap] == HeapPage(0, Empty(Body(db.pages, newHeap).bytes))
    ensures forall p :: p in db.pages && p != newHeap ==> db.pages[p].FreePage?
  {
    SomeFree(db.pages, db.nextPage, db.freeHead, db.free, 1);
    newHeap := db.AllocPage();
    ghost var pages1 := db.pages;
    db.pages := db.pages[newHeap := HeapPage(0, Empty(seq(db.pageSize, _ => 0)))];
    SameFreePages(pages1, db.pages, db.nextPage, db.freeHead, db.free);
  }

  method TakeRoot(db: Store, newHeap: PageId) returns (newRoot: PageId)
    requires AllocatedFile(db.Now()) && db.nextPage >= 3 && newHeap in db.pages && db.pages[newHeap].HeapPage?
    requires forall p :: p in db.pages && p != newHeap ==> db.pages[p].FreePage?
    modifies db`pages, db`nextPage, db`freeHead, db`free
    ensures AllocatedFile(db.Now()) && db.nextPage == old(db.nextPage)
    ensures newRoot != 0 && newHeap != newRoot && newRoot in db.pages && newHeap in db.pages && db.pages[newHeap] == old(db.pages)[newHeap]
    ensures db.pages[newRoot] == EMPTY_LEAF
    ensures forall p :: p in db.pages && p != newHeap && p != newRoot ==> db.pages[p].FreePage?
  {
    SomeFree(db.pages, db.nextPage, db.freeHead, db.free, if newHeap == 1 then 2 else 1);
    newRoot := db.AllocPage();
    ghost var pages2 := db.pages;
    db.pages := db.pages[newRoot := EMPTY_LEAF];
    SameFreePages(pages2, db.pages, db.nextPage, db.freeHead, db.free);
  }

  /** There are always a heap page and a root, so at least two pages. */
  lemma {:induction false} TwoPages(db: Store)
    requires DbOK(db)
    ensures db.nextPage >= 3
  {
    LastIsHeapPage(db.HeapNow());
    assert NodeOK(db.Index(), db.root);
  }

  /** DROP TABLE: every page is freed and two of them are taken again, for an empty heap and an empty
      index; the file does not grow and no page is lost. */
  method ExecDropTable(db: Store) returns (ok: bool)
    requires DbOK(db)
    modifies db
    ensures DbOK(db) && db.nextPage == old(db.nextPage)
    ensures ok <==> old(db.columns) != []
    ensures !ok ==> db.Now() == old(db.Now()) && db.HeapNow() == old(db.HeapNow())
    ensures !ok ==> db.columns == old(db.columns) && db.nextId == old(db.nextId)
    ensures ok ==> db.columns == [] && TableContents(db) == map[] && db.nextId == 1 && db.rowCount == 0
  {
    if |db.columns| == 0 {
      return false;
    }
    TwoPages(db);
    FreeAllPages(db);
    var newHeap := TakeHeap(db);
    var newRoot := TakeRoot(db, newHeap);
    ResetHeader(db, newHeap, newRoot);
    EmptyDatabase(db.caps, db.Now(), db.HeapNow());
    ok := true;
  }

  method ResetHeader(db: Store, newHeap: PageId, newRoot: PageId)
    modifies db`columns, db`rowSize, db`rowCount, db`nextId, db`firstHeap, db`root, db`lastHeap, db`mayHaveFreeSlots, db`heap, db`place, db`rows
    ensures db.columns == [] && db.rowSize == 0 && db.rowCount == 0 && db.nextId == 1
    ensures db.firstHeap == db.lastHeap == newHeap && db.root == newRoot && !db.mayHaveFreeSlots
    ensures db.heap == [newHeap] && db.place == map[newRoot := Place(0, 0, KEY_LIMIT)] && db.rows == map[]
  {
    db.columns := [];
    db.rowSize := 0;
    db.rowCount := 0;
    db.nextId := 1;
    db.firstHeap := newHeap;
    db.root := newRoot;
    db.lastHeap := newHeap;
    db.mayHaveFreeSlots := false;
    db.heap := [newHeap];
    db.place, db.rows := map[newRoot := Place(0, 0, KEY_LIMIT)], map[];
  }
}
