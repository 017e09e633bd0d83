/** What holds of the whole database between statements: the index and the heap name the same rows,
    each row carries the id it is filed under, and the counters of the header are right. */
module Database {
  import opened Pages
  import opened Tree
  import opened SlottedPage
  import opened HeapFile
  import opened Store
  import S = Schema
  import opened TableHeap

  type Column = S.Column

  const SIGNED_LIMIT: nat := 0x8000_0000_0000_0000

  /** The id a stored row carries: its first eight bytes, lowest first. */
  function IdOf(row: Bytes): nat {
    if |row| < 8 then 0 else S.FromBytes(row[..8])
  }

  /** The row at a live place. */
  ghost function RowAt(h: Heap, ref: RowRef): Bytes {
    if LiveAt(h, ref) && h.pages[ref.pageId].body.slots[ref.slotId].offset + h.fm.rowSize <= |h.pages[ref.pageId].body.bytes|
    then RowBytes(h.fm, h.pages[ref.pageId].body, ref.slotId) else []
  }

  lemma {:induction false} RowAtIs(h: Heap, ref: RowRef)
    requires HeapOK(h)
    ensures LiveAt(h, ref) ==> HasRowAt(h, ref, RowAt(h, ref)) && |RowAt(h, ref)| == h.fm.rowSize
    ensures forall row {:trigger HasRowAt(h, ref, row)} :: HasRowAt(h, ref, row) ==> LiveAt(h, ref) && row == RowAt(h, ref)
  {
    if LiveAt(h, ref) {
      var row := LiveHasRow(h, ref);
    }
  }

  /** The row is what some proper values are stored as. */
  ghost predicate Canonical(cols: seq<Column>, row: Bytes) {
    exists vs :: S.RowOK(cols, vs) && row == S.Encode(cols, vs)
  }

  ghost predicate EntryOK(h: Heap, rows: map<nat, RowRef>, k: nat)
    requires k in rows
  {
    LiveAt(h, rows[k]) && IdOf(RowAt(h, rows[k])) == k
  }

  ghost predicate PlaceOK(h: Heap, rows: map<nat, RowRef>, cols: seq<Column>, ref: RowRef) {
    LiveAt(h, ref) ==>
      IdOf(RowAt(h, ref)) in rows && rows[IdOf(RowAt(h, ref))] == ref && Canonical(cols, RowAt(h, ref))
  }

  /** Live rows and index entries are in one-to-one correspondence, each under the id it carries. */
  ghost predicate Agrees(h: Heap, rows: map<nat, RowRef>, cols: seq<Column>) {
    && (forall k {:trigger EntryOK(h, rows, k)} :: k in rows ==> EntryOK(h, rows, k))
    && (forall ref {:trigger PlaceOK(h, rows, cols, ref)} :: PlaceOK(h, rows, cols, ref))
  }

  /** The table as a map from ids to stored rows. */
  ghost function Contents(h: Heap, rows: map<nat, RowRef>): map<nat, Bytes> {
    map k | k in rows :: RowAt(h, rows[k])
  }

  /* ---------- changes of the heap ---------- */

  lemma {:induction false} OthersSame(h: Heap, h': Heap, ref: RowRef, r: RowRef)
    requires HeapOK(h) && HeapOK(h') && SameRowsBut(h, h', ref) && r != ref
    ensures LiveAt(h', r) <==> LiveAt(h, r)
    ensures RowAt(h', r) == RowAt(h, r)
  {
    RowAtIs(h, r);
    RowAtIs(h', r);
    assert LiveAt(h, r) ==> HasRowAt(h', r, RowAt(h, r));
    assert LiveAt(h', r) ==> HasRowAt(h, r, RowAt(h', r));
  }

  /** A new row filed under a new id. */
  lemma {:induction false} Added(h: Heap, h': Heap, rows: map<nat, RowRef>, cols: seq<Column>, k: nat, ref: RowRef, row: Bytes) returns (rows': map<nat, RowRef>)
    requires HeapOK(h) && HeapOK(h') && Agrees(h, rows, cols)
    requires !LiveAt(h, ref) && HasRowAt(h', ref, row) && SameRowsBut(h, h', ref)
    requires k !in rows && IdOf(row) == k && Canonical(cols, row)
    ensures rows' == rows[k := ref] && Agrees(h', rows', cols)
    ensures Contents(h', rows') == Contents(h, rows)[k := row]
  {
    rows' := rows[k := ref];
    RowAtIs(h', ref);
    forall j | j in rows'
      ensures EntryOK(h', rows', j)
      ensures RowAt(h', rows'[j]) == if j == k then row else RowAt(h, rows[j])
    {
      if j != k {
        assert EntryOK(h, rows, j);
        OthersSame(h, h', ref, rows[j]);
      }
    }
    forall r
      ensures PlaceOK(h', rows', cols, r)
    {
      if r != ref {
        assert PlaceOK(h, rows, cols, r);
        OthersSame(h, h', ref, r);
      }
    }
  }

  /** A row that goes from both. */
  lemma {:induction false} Removed(h: Heap, h': Heap, rows: map<nat, RowRef>, cols: seq<Column>, k: nat) returns (rows': map<nat, RowRef>)
    requires HeapOK(h) && HeapOK(h') && Agrees(h, rows, cols)
    requires k in rows && !LiveAt(h', rows[k]) && SameRowsBut(h, h', rows[k])
    ensures rows' == rows - {k} && Agrees(h', rows', cols)
    ensures Contents(h', rows') == Contents(h, rows) - {k}
  {
    rows' := rows - {k};
    assert EntryOK(h, rows, k);
    forall j | j in rows'
      ensures EntryOK(h', rows', j)
      ensures RowAt(h', rows'[j]) == RowAt(h, rows[j])
    {
      assert EntryOK(h, rows, j);
      OthersSame(h, h', rows[k], rows[j]);
    }
    forall r
      ensures PlaceOK(h', rows', cols, r)
    {
      if r != rows[k] {
        assert PlaceOK(h, rows, cols, r);
        OthersSame(h, h', rows[k], r);
      }
    }
  }

  /** A row that is written over by one with the same id. */
  lemma {:induction false} Replaced(h: Heap, h': Heap, rows: map<nat, RowRef>, cols: seq<Column>, k: nat, row: Bytes)
    requires HeapOK(h) && HeapOK(h') && Agrees(h, rows, cols)
    requires k in rows && HasRowAt(h', rows[k], row) && SameRowsBut(h, h', rows[k])
    requires IdOf(row) == k && Canonical(cols, row)
    ensures Agrees(h', rows, cols)
    ensures Contents(h', rows) == Contents(h, rows)[k := row]
  {
    ReplacedContents(h, h', rows, cols, k, row);
    forall j | j in rows
      ensures EntryOK(h', rows, j)
    {
      ReplacedEntry(h, h', rows, cols, k, row, j);
    }
    forall r
      ensures PlaceOK(h', rows, cols, r)
    {
      ReplacedPlace(h, h', rows, cols, k, row, r);
    }
  }

  lemma {:induction false} ReplacedContents(h: Heap, h': Heap, rows: map<nat, RowRef>, cols: seq<Column>, k: nat, row: Bytes)
    requires HeapOK(h) && HeapOK(h') && Agrees(h, rows, cols)
    requires k in rows && HasRowAt(h', rows[k], row) && SameRowsBut(h, h', rows[k]) && IdOf(row) == k
    ensures Contents(h', rows) == Contents(h, rows)[k := row]
  {
    forall j | j in rows
      ensures RowAt(h', rows[j]) == if j == k then row else RowAt(h, rows[j])
    {
      ReplacedEntry(h, h', rows, cols, k, row, j);
    }
  }

  lemma {:induction false} ReplacedEntry(h: Heap, h': Heap, rows: map<nat, RowRef>, cols: seq<Column>, k: nat, row: Bytes, j: nat)
    requires HeapOK(h) && HeapOK(h') && Agrees(h, rows, cols)
    requires k in rows && HasRowAt(h', rows[k], row) && SameRowsBut(h, h', rows[k]) && IdOf(row) == k
    requires j in rows
    ensures EntryOK(h', rows, j)
    ensures RowAt(h', rows[j]) == if j == k then row else RowAt(h, rows[j])
  {
    assert EntryOK(h, rows, k) && EntryOK(h, rows, j);
    if j == k {
      RowAtIs(h', rows[k]);
    } else {
      OthersSame(h, h', rows[k], rows[j]);
    }
  }

  lemma {:induction false} ReplacedPlace(h: Heap, h': Heap, rows: map<nat, RowRef>, cols: seq<Column>, k: nat, row: Bytes, r: RowRef)
    requires HeapOK(h) && HeapOK(h') && Agrees(h, rows, cols)
    requires k in rows && HasRowAt(h', rows[k], row) && SameRowsBut(h, h', rows[k]) && IdOf(row) == k && Canonical(cols, row)
    ensures PlaceOK(h', rows, cols, r)
  {
    assert PlaceOK(h, rows, cols, r);
    if r == rows[k] {
      RowAtIs(h', rows[k]);
    } else {
      OthersSame(h, h', rows[k], r);
    }
  }

  /** A change of the tree leaves the heap alone. */
  lemma {:induction false} HeapStands(h: Heap, h': Heap, rows: map<nat, RowRef>, cols: seq<Column>)
    requires HeapOK(h) && HeapKept(h.pages, h'.pages) && h' == h.(pages := h'.pages)
    ensures HeapOK(h')
    ensures Agrees(h, rows, cols) ==> Agrees(h', rows, cols)
    ensures Contents(h', rows) == Contents(h, rows)
    ensures forall r, row {:trigger HasRowAt(h', r, row)} {:trigger HasRowAt(h, r, row)} :: HasRowAt(h', r, row) <==> HasRowAt(h, r, row)
    ensures forall r {:trigger LiveAt(h', r)} {:trigger LiveAt(h, r)} :: LiveAt(h', r) <==> LiveAt(h, r)
  {
    forall i | 0 <= i < |h.chain|
      ensures HeapLink(h', i)
    {
      assert HeapLink(h, i);
    }
    forall p | IsHeapPage(h', p)
      ensures p in h'.chain
    {
      assert IsHeapPage(h, p);
    }
    forall r
      ensures LiveAt(h', r) <==> LiveAt(h, r)
      ensures RowAt(h', r) == RowAt(h, r)
    {
    }
    if Agrees(h, rows, cols) {
      forall k | k in rows
        ensures EntryOK(h', rows, k)
      {
        assert EntryOK(h, rows, k);
      }
      forall r
        ensures PlaceOK(h', rows, cols, r)
      {
        assert PlaceOK(h, rows, cols, r);
      }
    }
  }

  /** A new row in the heap and then in the index. */
  lemma {:induction false} AddedToBoth(h: Heap, h1: Heap, h2: Heap, rows: map<nat, RowRef>, cols: seq<Column>, nextId: nat, rowCount: nat, k: nat, ref: RowRef, row: Bytes)
    requires HeapOK(h) && HeapOK(h1) && Filed(h, rows, cols, nextId, rowCount)
    requires !LiveAt(h, ref) && HasRowAt(h1, ref, row) && SameRowsBut(h, h1, ref)
    requires 1 <= k < nextId && k !in rows && IdOf(row) == k && Canonical(cols, row) && cols != []
    requires HeapKept(h1.pages, h2.pages) && h2 == h1.(pages := h2.pages)
    ensures HeapOK(h2) && Filed(h2, rows[k := ref], cols, nextId, rowCount + 1)
    ensures Contents(h2, rows[k := ref]) == Contents(h, rows)[k := row]
  {
    var rows' := Added(h, h1, rows, cols, k, ref, row);
    HeapStands(h1, h2, rows', cols);
  }

  /** A row taken out of the heap and then out of the index. */
  lemma {:induction false} RemovedFromBoth(h: Heap, h1: Heap, h2: Heap, rows: map<nat, RowRef>, cols: seq<Column>, nextId: nat, rowCount: nat, k: nat)
    requires HeapOK(h) && HeapOK(h1) && Filed(h, rows, cols, nextId, rowCount)
    requires k in rows && !LiveAt(h1, rows[k]) && SameRowsBut(h, h1, rows[k])
    requires HeapKept(h1.pages, h2.pages) && h2 == h1.(pages := h2.pages)
    ensures HeapOK(h2) && rowCount > 0 && Filed(h2, rows - {k}, cols, nextId, rowCount - 1)
    ensures Contents(h2, rows - {k}) == Contents(h, rows) - {k}
  {
    var rows' := Removed(h, h1, rows, cols, k);
    HeapStands(h1, h2, rows', cols);
    assert rows.Keys == rows'.Keys + {k};
    assert |rows| == |rows.Keys| && |rows'| == |rows'.Keys|;
  }

  /* ---------- ids in rows ---------- */

  predicate IsIdColumn(c: Column) {
    c.kind == S.KBigint && c.size == 8 && c.isSystem
  }

  lemma {:induction false} IdBytes(cols: seq<Column>, buf: Bytes)
    requires |cols| > 0 && IsIdColumn(cols[0]) && |buf| == S.EndOf(cols, |cols|)
    ensures |buf| >= 8 && S.Field(cols, buf, 0) == buf[..8]
  {
    S.EndGrows(cols, 0, |cols|);
    assert S.EndOf(cols, 0) == 0;
  }

  /** A row encoded with an id in column 0 carries that id. */
  lemma {:induction false} EncodedId(cols: seq<Column>, vs: seq<S.Value>, k: nat)
    requires S.RowOK(cols, vs) && |cols| > 0 && IsIdColumn(cols[0]) && vs[0] == S.BigV(k)
    ensures IdOf(S.Encode(cols, vs)) == k
  {
    S.ColumnRoundTrip(cols, vs, 0);
    IdBytes(cols, S.Encode(cols, vs));
    assert S.ValueOK(cols[0], vs[0]);
    S.BytesRoundTrip(S.Unsigned(k, 8), 8);
  }

  lemma {:induction false} DecodedId(cols: seq<Column>, ws: seq<S.Value>, row: Bytes)
    requires |cols| > 0 && IsIdColumn(cols[0]) && S.RowOK(cols, ws) && row == S.Encode(cols, ws) && IdOf(row) < SIGNED_LIMIT
    ensures ws[0] == S.BigV(IdOf(row))
  {
    S.ColumnRoundTrip(cols, ws, 0);
    IdBytes(cols, row);
    assert S.ValueOK(cols[0], ws[0]);
    var b := ws[0].b;
    S.SignRoundTrip(b, 8);
    S.BytesRoundTrip(S.Unsigned(b, 8), 8);
    EightBytes();
  }

  lemma {:induction false} EightBytes()
    ensures S.Pow256(8) == 0x1_0000_0000_0000_0000
  {
  }

  /** Reading a stored row back gives proper values, with the id in column 0. */
  lemma {:induction false} DecodedRow(cols: seq<Column>, row: Bytes) returns (vs: seq<S.Value>)
    requires |cols| > 0 && IsIdColumn(cols[0]) && Canonical(cols, row) && IdOf(row) < SIGNED_LIMIT
    ensures S.ColumnsOK(cols) && |row| == S.EndOf(cols, |cols|) && vs == S.Decode(cols, row)
    ensures S.RowOK(cols, vs) && vs[0] == S.BigV(IdOf(row))
    ensures S.Encode(cols, vs) == row
  {
    var ws :| S.RowOK(cols, ws) && row == S.Encode(cols, ws);
    S.RowRoundTrip(cols, ws);
    vs := S.CutRow(cols, ws);
    S.CutAgain(cols, ws);
    DecodedId(cols, vs, row);
  }

  /* ---------- the whole database ---------- */

  /** The columns: none before a table is created, and after that the id first and the others behind it. */
  ghost predicate TableOK(cols: seq<Column>, rowSize: nat, pageSize: nat) {
    && pageSize < U16 && 24 <= pageSize
    && if cols == [] then rowSize == 0
       else IsIdColumn(cols[0]) && S.ColumnsOK(cols) && S.Tiled(cols) && rowSize == S.EndOf(cols, |cols|) && rowSize + 24 <= pageSize
  }

  /** A heap of one page without a slot, as it is while there is no table. */
  ghost predicate Blank(h: Heap) {
    |h.chain| == 1 && IsHeapPage(h, h.first) && h.pages[h.first].body == Empty(h.pages[h.first].body.bytes)
  }

  /** The rows on file: filed under their ids, which have all been handed out, and counted. */
  ghost predicate Filed(h: Heap, rows: map<nat, RowRef>, cols: seq<Column>, nextId: nat, rowCount: nat) {
    && Agrees(h, rows, cols)
    && 1 <= nextId <= SIGNED_LIMIT
    && (forall k {:trigger k in rows} :: k in rows ==> 1 <= k < nextId)
    && rowCount == |rows|
    && (cols == [] ==> rows == map[] && Blank(h))
  }

  ghost predicate DbOK(db: Store)
    reads db
  {
    && Sound(db) && TableOK(db.columns, db.rowSize, db.pageSize)
    && Filed(db.HeapNow(), db.rows, db.columns, db.nextId, db.rowCount)
  }

  ghost function TableContents(db: Store): map<nat, Bytes>
    reads db`pages, db`rows, db`firstHeap, db`lastHeap, db`mayHaveFreeSlots, db`heap, db`rowSize
  {
    Contents(db.HeapNow(), db.rows)
  }

  /** Every page but the header is exactly one of: a page of the heap chain, a page of the tree, a page
      on the free list; and neither list names a page twice. */
  lemma {:induction false} PagesConserved(db: Store, p: PageId)
    requires DbOK(db)
    ensures 1 <= p < db.nextPage <==> p in db.heap || p in db.place || p in db.free
    ensures !(p in db.heap && p in db.place) && !(p in db.heap && p in db.free) && !(p in db.place && p in db.free)
    ensures HeapFile.Distinct(db.heap) && HeapFile.Distinct(db.free)
  {
    var h := db.HeapNow();
    if p in db.heap {
      var i :| 0 <= i < |db.heap| && db.heap[i] == p;
      assert HeapLink(h, i);
    }
    if p in db.free {
      var i :| 0 <= i < |db.free| && db.free[i] == p;
      assert FreeLink(db.pages, db.free, i);
    }
    if p in db.place {
      assert NodeOK(db.Index(), p);
    }
    if p in db.pages {
      assert db.pages[p].HeapPage? ==> IsHeapPage(h, p);
    }
  }
}
