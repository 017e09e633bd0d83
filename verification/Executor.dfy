/** The statements that change rows. */
module Executor {
  import opened Pages
  import opened Tree
  import opened TreeHeight
  import opened TreeDescent
  import opened TreeInsert
  import opened TreeDelete
  import opened SlottedPage
  import opened HeapFile
  import opened Store
  import opened TableHeap
  import opened Database
  import opened Predicates
  import S = Schema
  import R = RowIds

  /** The stored row satisfies the predicate. */
  ghost predicate RowMatches(cols: seq<Column>, row: Bytes, p: Predicate) {
    && cols != [] && cols[0].kind == S.KBigint && S.ColumnsOK(cols) && |row| == S.EndOf(cols, |cols|)
    && S.RowOK(cols, S.Decode(cols, row))
    && MatchPredicate(cols, S.Decode(cols, row), p)
  }

  /* ---------- INSERT ---------- */

  /** The loop that maps the literals of the statement to the columns. */
  method FillValues(cols: seq<Column>, id: nat, ls: seq<Literal>) returns (vs: seq<S.Value>)
    requires cols != []
    ensures vs == NewRow(cols, id, ls)
  {
    vs := seq(|cols|, i requires 0 <= i < |cols| => ZeroValue(cols[i].kind));
    vs := vs[0 := S.BigV(id)];
    var valIdx := 0;
    var i := 1;
    while i < |cols| && valIdx < |ls|
      invariant 1 <= i <= |cols| && valIdx == i - 1 && valIdx <= |ls| && |vs| == |cols|
      invariant forall k :: 0 <= k < i ==> vs[k] == NewRow(cols, id, ls)[k]
      invariant forall k :: i <= k < |cols| ==> vs[k] == ZeroValue(cols[k].kind)
    {
      vs := vs[i := FromLiteral(cols[i].kind, ls[valIdx])];
      valIdx := valIdx + 1;
      i := i + 1;
    }
  }

  /** File a stored row under its id: in the heap, then in the index. */
  method AddRow(db: Store, id: nat, row: Bytes) returns (rc: int)
    requires DbOK(db) && db.columns != [] && id !in db.rows && 1 <= id < db.nextId
    requires IdOf(row) == id && Canonical(db.columns, row) && |row| == db.rowSize
    requires db.nextPage + MAX_TREE_DEPTH + 2 <= PAGE_LIMIT
    modifies db`pages, db`nextPage, db`freeHead, db`free, db`lastHeap, db`heap, db`mayHaveFreeSlots, db`place, db`root, db`rows
    ensures Sound(db) && rc == 0
    ensures Filed(db.HeapNow(), db.rows, db.columns, db.nextId, db.rowCount + 1)
    ensures TableContents(db) == old(TableContents(db))[id := row]
  {
    ghost var h, rows0 := db.HeapNow(), db.rows;
    var ref := HeapInsert(db, row);
    ghost var h1 := db.HeapNow();
    rc := Insert(db, id, ref);
    AddedToBoth(h, h1, db.HeapNow(), rows0, db.columns, db.nextId, db.rowCount, id, ref, row);
  }

  /** The row of an INSERT as it is stored. */
  ghost predicate StoresNew(cols: seq<Column>, row: Bytes, id: nat, ls: seq<Literal>) {
    S.RowOK(cols, NewRow(cols, id, ls)) && row == S.Encode(cols, NewRow(cols, id, ls))
  }

  /** The row of an INSERT, read back: its id, the literals in order as far as they go, and zeros and
      empty strings after them. */
  lemma {:induction false} InsertedRowReads(cols: seq<Column>, row: Bytes, id: nat, ls: seq<Literal>) returns (vs: seq<S.Value>)
    requires |cols| > 0 && IsIdColumn(cols[0]) && StoresNew(cols, row, id, ls)
    requires forall i :: 0 <= i < |ls| ==> LiteralOK(ls[i])
    ensures S.ColumnsOK(cols) && |row| == S.EndOf(cols, |cols|) && vs == S.Decode(cols, row) && vs[0] == S.BigV(id)
    ensures forall i :: 1 <= i < |cols| && cols[i].kind == S.KInt ==> vs[i] == S.IntV(if i - 1 < |ls| then ls[i - 1].asInt else 0)
    ensures forall i :: 1 <= i < |cols| && cols[i].kind == S.KBigint ==> vs[i] == S.BigV(if i - 1 < |ls| then ls[i - 1].asBig else 0)
    ensures forall i :: 1 <= i < |cols| && cols[i].kind == S.KVarchar ==>
              var text := if i - 1 < |ls| then ls[i - 1].asStr else [];
              vs[i].StrV? && vs[i].s <= text && |vs[i].s| == if |text| < cols[i].size - 1 then |text| else cols[i].size - 1
  {
    var ws := NewRow(cols, id, ls);
    S.RowRoundTrip(cols, ws);
    vs := S.Decode(cols, row);
    forall i | 1 <= i < |cols|
      ensures ws[i] == FromLiteral(cols[i].kind, if i - 1 < |ls| then ls[i - 1] else Literal(0, 0, []))
    {
    }
  }

  method MakeRow(cols: seq<Column>, id: nat, ls: seq<Literal>, ghost rowSize: nat, ghost pageSize: nat) returns (row: Bytes)
    requires cols != [] && TableOK(cols, rowSize, pageSize) && id < SIGNED_LIMIT
    requires forall i :: 0 <= i < |ls| ==> LiteralOK(ls[i])
    ensures StoresNew(cols, row, id, ls) && IdOf(row) == id && Canonical(cols, row) && |row| == rowSize
  {
    NewRowOK(cols, id, ls);
    var vs := FillValues(cols, id, ls);
    EncodedId(cols, vs, id);
    row := S.Serialize(cols, vs);
  }

  /** The part of an INSERT that runs once the lock on its id is held. */
  method InsertLocked(db: Store, id: nat, ls: seq<Literal>) returns (ok: bool, ghost row: Bytes)
    requires DbOK(db) && db.columns != [] && id !in db.rows && 1 <= id < db.nextId
    requires db.nextPage + MAX_TREE_DEPTH + 2 <= PAGE_LIMIT
    requires forall i :: 0 <= i < |ls| ==> LiteralOK(ls[i])
    modifies db
    ensures DbOK(db) && db.columns == old(db.columns) && db.nextId == old(db.nextId)
    ensures ok && StoresNew(db.columns, row, id, ls)
    ensures TableContents(db) == old(TableContents(db))[id := row]
  {
    var buf := MakeRow(db.columns, id, ls, db.rowSize, db.pageSize);
    row := buf;
    var rc := AddRow(db, id, buf);
    ok := rc == 0;
    if ok {
      db.rowCount := db.rowCount + 1;
    }
  }

  /** INSERT. The id is taken before the lock is asked for, so an id that timed out is never used again.
      `granted` says how the lock table answered. */
  method ExecInsert(db: Store, ls: seq<Literal>, granted: bool) returns (ok: bool, ghost row: Bytes)
    requires DbOK(db) && db.nextId < SIGNED_LIMIT && db.nextPage + MAX_TREE_DEPTH + 2 <= PAGE_LIMIT
    requires forall i :: 0 <= i < |ls| ==> LiteralOK(ls[i])
    modifies db
    ensures DbOK(db) && db.columns == old(db.columns)
    ensures ok <==> db.columns != [] && granted
    ensures db.nextId == old(db.nextId) + if db.columns != [] then 1 else 0
    ensures old(db.nextId) !in old(TableContents(db))
    ensures ok ==> StoresNew(db.columns, row, old(db.nextId), ls)
    ensures TableContents(db) == if ok then old(TableContents(db))[old(db.nextId) := row] else old(TableContents(db))
    ensures !ok ==> db.pages == old(db.pages)
  {
    row := [];
    if |db.columns| == 0 {
      return false, [];
    }
    var id := db.nextId;
    db.nextId := db.nextId + 1;
    if !granted {
      return false, [];
    }
    ok, row := InsertLocked(db, id, ls);
  }

  /* ---------- DELETE ---------- */

  /** Take a row out of the heap and then out of the index. */
  method DropRow(db: Store, id: nat, ref: RowRef) returns (heapRc: int, treeRc: int)
    requires DbOK(db) && id in db.rows && ref == db.rows[id] && id < KEY_LIMIT
    modifies db`pages, db`mayHaveFreeSlots, db`freeHead, db`free, db`place, db`root, db`rows
    ensures Sound(db) && heapRc == 0 && treeRc == 0 && db.rowCount > 0
    ensures Filed(db.HeapNow(), db.rows, db.columns, db.nextId, db.rowCount - 1)
    ensures TableContents(db) == old(TableContents(db)) - {id}
  {
    ghost var h, rows0 := db.HeapNow(), db.rows;
    assert EntryOK(h, rows0, id);
    heapRc := HeapDelete(db, ref);
    ghost var h1 := db.HeapNow();
    treeRc := Delete(db, id);
    RemovedFromBoth(h, h1, db.HeapNow(), rows0, db.columns, db.nextId, db.rowCount, id);
  }

  /** DELETE WHERE id = n. */
  method ExecIndexDelete(db: Store, id: nat) returns (found: bool)
    requires DbOK(db) && id < KEY_LIMIT
    modifies db`pages, db`mayHaveFreeSlots, db`freeHead, db`free, db`place, db`root, db`rows, db`rowCount
    ensures DbOK(db)
    ensures found <==> id in old(TableContents(db))
    ensures TableContents(db) == old(TableContents(db)) - {id}
    ensures !found ==> db.Now() == old(db.Now()) && db.HeapNow() == old(db.HeapNow())
  {
    var r := Lookup(db, id);
    if r == None {
      return false;
    }
    var heapRc, treeRc := DropRow(db, id, r.value);
    db.rowCount := db.rowCount - 1;
    found := true;
  }
}
