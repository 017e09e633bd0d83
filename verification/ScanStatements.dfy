/** UPDATE, and the DELETE and UPDATE that find their rows by a scan: collect the ids, lock them all in
    order, then read each row again and change it if it still satisfies the predicate. */
module ScanStatements {
  import opened Pages
  import opened TreeDescent
  import opened HeapFile
  import opened Store
  import opened TableHeap
  import opened Database
  import opened Predicates
  import opened Executor
  import S = Schema
  import R = RowIds

  /* ---------- reading one row ---------- */

  /** The stored row of an id that is on file. */
  lemma {:induction false} StoredRow(h: Heap, rows: map<nat, RowRef>, cols: seq<Column>, nextId: nat, rowCount: nat, id: nat)
    requires HeapOK(h) && Filed(h, rows, cols, nextId, rowCount) && id in rows
    ensures LiveAt(h, rows[id]) && HasRowAt(h, rows[id], RowAt(h, rows[id])) && Contents(h, rows)[id] == RowAt(h, rows[id])
    ensures IdOf(RowAt(h, rows[id])) == id < SIGNED_LIMIT && Canonical(cols, RowAt(h, rows[id])) && cols != []
  {
    assert EntryOK(h, rows, id);
    assert PlaceOK(h, rows, cols, rows[id]);
    RowAtIs(h, rows[id]);
  }

  /** Fetch the row at a place of the index and read its values. */
  method ReadRow(db: Store, id: nat, ref: RowRef) returns (ok: bool, vs: seq<S.Value>)
    requires DbOK(db) && id in db.rows && ref == db.rows[id]
    ensures ok && db.columns != [] && S.RowOK(db.columns, vs) && vs[0] == S.BigV(id) && id in TableContents(db)
    ensures S.Encode(db.columns, vs) == TableContents(db)[id] && S.Decode(db.columns, TableContents(db)[id]) == vs
  {
    StoredRow(db.HeapNow(), db.rows, db.columns, db.nextId, db.rowCount, id);
    var row := HeapFetch(db, ref);
    if row == None {
      return false, [];
    }
    RowAtIs(db.HeapNow(), ref);
    ghost var ws := DecodedRow(db.columns, row.value);
    vs := S.Deserialize(db.columns, row.value);
    ok := true;
  }

  /** Look the id up, fetch the row and test it. */
  method FetchMatching(db: Store, id: nat, p: Predicate) returns (found: bool, ref: RowRef, vs: seq<S.Value>)
    requires DbOK(db) && id < KEY_LIMIT
    ensures found <==> id in TableContents(db) && RowMatches(db.columns, TableContents(db)[id], p)
    ensures found ==> id in db.rows && ref == db.rows[id] && db.columns != [] && S.RowOK(db.columns, vs) && vs[0] == S.BigV(id)
    ensures found ==> S.Encode(db.columns, vs) == TableContents(db)[id] && S.Decode(db.columns, TableContents(db)[id]) == vs
  {
    ref, vs := RowRef(0, 0), [];
    var r := Lookup(db, id);
    if r == None {
      return false, ref, vs;
    }
    var ok;
    ok, vs := ReadRow(db, id, r.value);
    ref := r.value;
    found := ok && MatchPredicate(db.columns, vs, p);
  }

  /* ---------- collecting ---------- */

  ghost predicate Picked(out: seq<HeapRow>, n: nat, cols: seq<Column>, p: Predicate, k: nat)
    requires n <= |out|
  {
    exists j :: 0 <= j < n && IdOf(out[j].row) == k && RowMatches(cols, out[j].row, p)
  }

  /** The rows of a full scan are the rows on file. */
  lemma {:induction false} ScannedRow(h: Heap, rows: map<nat, RowRef>, cols: seq<Column>, nextId: nat, rowCount: nat, j: nat)
    requires HeapOK(h) && Filed(h, rows, cols, nextId, rowCount) && j < |RowsFrom(h, 0)|
    ensures var r := RowsFrom(h, 0)[j];
            && IdOf(r.row) in rows && rows[IdOf(r.row)] == r.ref && IdOf(r.row) < SIGNED_LIMIT
            && Contents(h, rows)[IdOf(r.row)] == r.row && Canonical(cols, r.row) && cols != []
  {
    var r := RowsFrom(h, 0)[j];
    AllRows(h);
    assert Lists(RowsFrom(h, 0), r.ref, r.row);
    RowAtIs(h, r.ref);
    assert PlaceOK(h, rows, cols, r.ref);
  }

  lemma {:induction false} FiledRowScanned(h: Heap, rows: map<nat, RowRef>, cols: seq<Column>, nextId: nat, rowCount: nat, k: nat) returns (j: nat)
    requires HeapOK(h) && Filed(h, rows, cols, nextId, rowCount) && k in rows
    ensures j < |RowsFrom(h, 0)| && IdOf(RowsFrom(h, 0)[j].row) == k && RowsFrom(h, 0)[j].row == Contents(h, rows)[k]
  {
    AllRows(h);
    StoredRow(h, rows, cols, nextId, rowCount, k);
    assert Lists(RowsFrom(h, 0), rows[k], RowAt(h, rows[k]));
    j :| 0 <= j < |RowsFrom(h, 0)| && RowsFrom(h, 0)[j] == HeapRow(rows[k], RowAt(h, rows[k]));
  }

  lemma {:induction false} PickedAll(h: Heap, rows: map<nat, RowRef>, cols: seq<Column>, nextId: nat, rowCount: nat, p: Predicate, k: nat)
    requires HeapOK(h) && Filed(h, rows, cols, nextId, rowCount)
    ensures Picked(RowsFrom(h, 0), |RowsFrom(h, 0)|, cols, p, k)
       <==> k in Contents(h, rows) && RowMatches(cols, Contents(h, rows)[k], p)
  {
    var all := RowsFrom(h, 0);
    if Picked(all, |all|, cols, p, k) {
      var j :| 0 <= j < |all| && IdOf(all[j].row) == k && RowMatches(cols, all[j].row, p);
      ScannedRow(h, rows, cols, nextId, rowCount, j);
    }
    if k in rows {
      var j := FiledRowScanned(h, rows, cols, nextId, rowCount, k);
    }
  }

  /** The rows that satisfy the predicate, by id. */
  ghost function Matching(c: map<nat, Bytes>, cols: seq<Column>, p: Predicate): set<nat> {
    set k | k in c && RowMatches(cols, c[k], p)
  }

  /** What the callback does with one row. */
  method TestRow(db: Store, r: HeapRow, ghost n: nat, p: Predicate) returns (hit: bool, id: nat)
    requires DbOK(db) && n < |RowsFrom(db.HeapNow(), 0)| && r == RowsFrom(db.HeapNow(), 0)[n]
    ensures hit <==> RowMatches(db.columns, r.row, p)
    ensures hit ==> id == IdOf(r.row)
  {
    ScannedRow(db.HeapNow(), db.rows, db.columns, db.nextId, db.rowCount, n);
    ghost var ws := DecodedRow(db.columns, r.row);
    var vs := S.Deserialize(db.columns, r.row);
    hit := MatchPredicate(db.columns, vs, p);
    id := vs[0].b;
  }

  /** The first pass: scan the heap and note the ids of the rows that satisfy the predicate. */
  method CollectIds(db: Store, p: Predicate) returns (ids: seq<nat>)
    requires DbOK(db)
    ensures forall k :: k in ids <==> k in TableContents(db) && RowMatches(db.columns, TableContents(db)[k], p)
  {
    ghost var h := db.HeapNow();
    var out := HeapScan(db, _ => true);
    assert out == RowsFrom(h, 0);
    ids := [];
    var n := 0;
    while n < |out|
      invariant 0 <= n <= |out| && forall k :: k in ids <==> Picked(out, n, db.columns, p, k)
    {
      ghost var ids0 := ids;
      var hit, id := TestRow(db, out[n], n, p);
      if hit {
        ids := ids + [id];
      }
      PickedMore(out, n, db.columns, p, ids0, ids);
      n := n + 1;
    }
    forall k
      ensures k in ids <==> k in TableContents(db) && RowMatches(db.columns, TableContents(db)[k], p)
    {
      PickedAll(h, db.rows, db.columns, db.nextId, db.rowCount, p, k);
    }
  }

  lemma {:induction false} PickedNext(out: seq<HeapRow>, n: nat, cols: seq<Column>, p: Predicate, k: nat)
    requires n < |out|
    ensures Picked(out, n + 1, cols, p, k) <==> Picked(out, n, cols, p, k) || (IdOf(out[n].row) == k && RowMatches(cols, out[n].row, p))
  {
  }

  lemma {:induction false} PickedMore(out: seq<HeapRow>, n: nat, cols: seq<Column>, p: Predicate, ids: seq<nat>, ids': seq<nat>)
    requires n < |out| && forall k :: k in ids <==> Picked(out, n, cols, p, k)
    requires ids' == if RowMatches(cols, out[n].row, p) then ids + [IdOf(out[n].row)] else ids
    ensures forall k :: k in ids' <==> Picked(out, n + 1, cols, p, k)
  {
    var id, hit := IdOf(out[n].row), RowMatches(cols, out[n].row, p);
    forall k
      ensures k in ids' <==> Picked(out, n + 1, cols, p, k)
    {
      PickedNext(out, n, cols, p, k);
      assert k in ids' <==> k in ids || (k == id && hit);
    }
  }

  /* ---------- deleting ---------- */

  function IdSet(ids: seq<nat>): set<nat> {
    set k | k in ids
  }

  lemma {:induction false} IdSetStep(ids: seq<nat>, i: nat)
    requires i < |ids|
    ensures IdSet(ids[..i + 1]) == IdSet(ids[..i]) + {ids[i]}
    ensures R.Ascending(ids) ==> ids[i] !in IdSet(ids[..i])
  {
    assert ids[..i + 1] == ids[..i] + [ids[i]];
  }

  /** The table without the listed rows that satisfy the predicate. */
  ghost function Deleted(c: map<nat, Bytes>, ids: set<nat>, cols: seq<Column>, p: Predicate): map<nat, Bytes> {
    map k | k in c && !(k in ids && RowMatches(cols, c[k], p)) :: c[k]
  }

  /** One row goes if it is there and satisfies the predicate. */
  ghost predicate OneGone(d: map<nat, Bytes>, d': map<nat, Bytes>, id: nat, cols: seq<Column>, p: Predicate) {
    d' == if id in d && RowMatches(cols, d[id], p) then d - {id} else d
  }

  /** The states of the table between one id and the next. */
  ghost predicate Deletions(hist: seq<map<nat, Bytes>>, ids: seq<nat>, n: nat, cols: seq<Column>, p: Predicate)
    requires n <= |ids|
  {
    |hist| == n + 1
    && forall k {:trigger OneGone(hist[k], hist[k + 1], ids[k], cols, p)} :: 0 <= k < n ==> OneGone(hist[k], hist[k + 1], ids[k], cols, p)
  }

  lemma {:induction false} DeletedNext(hist: seq<map<nat, Bytes>>, ids: seq<nat>, n: nat, cols: seq<Column>, p: Predicate, d: map<nat, Bytes>)
    returns (hist': seq<map<nat, Bytes>>)
    requires n < |ids| && Deletions(hist, ids, n, cols, p) && OneGone(hist[n], d, ids[n], cols, p)
    ensures hist' == hist + [d] && Deletions(hist', ids, n + 1, cols, p)
  {
    hist' := hist + [d];
    forall k | 0 <= k < n + 1
      ensures OneGone(hist'[k], hist'[k + 1], ids[k], cols, p)
    {
      assert k < n ==> OneGone(hist[k], hist[k + 1], ids[k], cols, p);
    }
  }

  lemma {:induction false} DeletedInTurn(hist: seq<map<nat, Bytes>>, ids: seq<nat>, n: nat, m: nat, cols: seq<Column>, p: Predicate)
    requires n <= m <= |ids| && Deletions(hist, ids, m, cols, p)
    ensures hist[n] == Deleted(hist[0], IdSet(ids[..n]), cols, p)
  {
    if n > 0 {
      DeletedInTurn(hist, ids, n - 1, m, cols, p);
      IdSetStep(ids, n - 1);
      assert OneGone(hist[n - 1], hist[n - 1 + 1], ids[n - 1], cols, p);
      DeletedStep(hist[0], IdSet(ids[..n - 1]), ids[n - 1], cols, p, hist[n - 1], hist[n]);
    } else {
      NothingDeleted(hist[0], cols, p);
    }
  }

  lemma {:induction false} NothingDeleted(c: map<nat, Bytes>, cols: seq<Column>, p: Predicate)
    ensures Deleted(c, {}, cols, p) == c
  {
  }

  lemma {:induction false} DeletedStep(c: map<nat, Bytes>, done: set<nat>, id: nat, cols: seq<Column>, p: Predicate, d: map<nat, Bytes>, d': map<nat, Bytes>)
    requires d == Deleted(c, done, cols, p) && OneGone(d, d', id, cols, p)
    ensures d' == Deleted(c, done + {id}, cols, p)
  {
  }

  /** One id after another comes to the same as all at once. */
  lemma {:induction false} DeletedAll(hist: seq<map<nat, Bytes>>, ids: seq<nat>, cols: seq<Column>, p: Predicate)
    requires Deletions(hist, ids, |ids|, cols, p)
    ensures hist[|ids|] == Deleted(hist[0], IdSet(ids), cols, p)
  {
    DeletedInTurn(hist, ids, |ids|, |ids|, cols, p);
    assert ids[..|ids|] == ids;
  }

  /** The second pass of a DELETE: every row that is still there and still satisfies the predicate goes,
      whatever has happened to the table since the ids were collected. */
  method ApplyDelete(db: Store, ids: seq<nat>, p: Predicate) returns (count: nat)
    requires DbOK(db) && forall i {:trigger ids[i]} :: 0 <= i < |ids| ==> ids[i] < KEY_LIMIT
    modifies db`pages, db`mayHaveFreeSlots, db`freeHead, db`free, db`place, db`root, db`rows, db`rowCount
    ensures DbOK(db)
    ensures TableContents(db) == Deleted(old(TableContents(db)), IdSet(ids), db.columns, p)
    ensures count + db.rowCount == old(db.rowCount)
  {
    ghost var hist := [TableContents(db)];
    count := 0;
    var i := 0;
    while i < |ids|
      invariant 0 <= i <= |ids| && DbOK(db)
      invariant Deletions(hist, ids, i, db.columns, p) && hist[0] == old(TableContents(db)) && hist[i] == TableContents(db)
      invariant count + db.rowCount == old(db.rowCount)
    {
      var found := DeleteIfMatching(db, ids[i], p);
      hist := DeletedNext(hist, ids, i, db.columns, p, TableContents(db));
      if found {
        count := count + 1;
      }
      i := i + 1;
    }
    DeletedAll(hist, ids, db.columns, p);
  }

  method DeleteIfMatching(db: Store, id: nat, p: Predicate) returns (found: bool)
    requires DbOK(db) && id < KEY_LIMIT
    modifies db`pages, db`mayHaveFreeSlots, db`freeHead, db`free, db`place, db`root, db`rows, db`rowCount
    ensures DbOK(db)
    ensures found <==> id in old(TableContents(db)) && RowMatches(db.columns, old(TableContents(db))[id], p)
    ensures OneGone(old(TableContents(db)), TableContents(db), id, db.columns, p)
    ensures db.rowCount + (if found then 1 else 0) == old(db.rowCount)
  {
    var ref, vs;
    found, ref, vs := FetchMatching(db, id, p);
    if found {
      DropAndCount(db, id, ref);
    }
  }

  /** Drop a row and, if both the heap and the index had it, count it. */
  method DropAndCount(db: Store, id: nat, ref: RowRef)
    requires DbOK(db) && id in db.rows && ref == db.rows[id] && id < KEY_LIMIT
    modifies db`pages, db`mayHaveFreeSlots, db`freeHead, db`free, db`place, db`root, db`rows, db`rowCount
    ensures DbOK(db) && TableContents(db) == old(TableContents(db)) - {id} && db.rowCount + 1 == old(db.rowCount)
  {
    var heapRc, treeRc := DropRow(db, id, ref);
    if heapRc == 0 && treeRc == 0 {
      db.rowCount := db.rowCount - 1;
    }
  }

  /** The table without the rows that satisfy the predicate. */
  ghost function Without(c: map<nat, Bytes>, cols: seq<Column>, p: Predicate): map<nat, Bytes> {
    map k | k in c && !RowMatches(cols, c[k], p) :: c[k]
  }

  ghost predicate AllGranted(c: map<nat, Bytes>, cols: seq<Column>, p: Predicate, grant: nat -> bool) {
    forall k :: k in c && RowMatches(cols, c[k], p) ==> grant(k)
  }

  /** The ids that a scan collects. */
  ghost predicate Collects(c: map<nat, Bytes>, ids: seq<nat>, cols: seq<Column>, p: Predicate) {
    forall k :: k in ids <==> k in c && RowMatches(cols, c[k], p)
  }

  lemma {:induction false} AllDeleted(c: map<nat, Bytes>, ids: seq<nat>, cols: seq<Column>, p: Predicate)
    requires Collects(c, ids, cols, p)
    ensures Deleted(c, IdSet(ids), cols, p) == Without(c, cols, p)
  {
  }

  lemma {:induction false} GrantsAll(c: map<nat, Bytes>, ids: seq<nat>, cols: seq<Column>, p: Predicate, grant: nat -> bool)
    requires Collects(c, ids, cols, p)
    ensures (forall k :: k in ids ==> grant(k)) <==> AllGranted(c, cols, p, grant)
  {
  }

  /** The first two passes of a scan DELETE or UPDATE: collect and lock. */
  method CollectAndLock(db: Store, p: Predicate, grant: nat -> bool) returns (ids: seq<nat>, ok: bool, failed: nat)
    requires DbOK(db)
    ensures R.Ascending(ids) && Collects(TableContents(db), ids, db.columns, p)
    ensures ok <==> AllGranted(TableContents(db), db.columns, p, grant)
    ensures !ok ==> !grant(failed)
    ensures forall i :: 0 <= i < |ids| ==> ids[i] < KEY_LIMIT
  {
    var collected := CollectIds(db, p);
    ghost var asked;
    ids, ok, failed, asked := R.LockCollected(collected, grant);
    GrantsAll(TableContents(db), collected, db.columns, p, grant);
    IdsInRange(db.rows, db.nextId, TableContents(db), ids);
  }

  lemma {:induction false} WithoutMatching(c: map<nat, Bytes>, cols: seq<Column>, p: Predicate)
    ensures |Without(c, cols, p)| + |Matching(c, cols, p)| == |c|
  {
    var d, m := Without(c, cols, p), Matching(c, cols, p);
    assert c.Keys == d.Keys + m && d.Keys !! m;
    assert |c| == |c.Keys| && |d| == |d.Keys|;
  }

  lemma {:induction false} RowsCounted(db: Store)
    requires DbOK(db)
    ensures |TableContents(db)| == db.rowCount
  {
    assert TableContents(db).Keys == db.rows.Keys;
    assert |TableContents(db)| == |TableContents(db).Keys| && |db.rows| == |db.rows.Keys|;
  }

  /** DELETE by a scan. `grant` is how the lock table answers; a single refusal leaves the table as it was. */
  method ExecDeleteScan(db: Store, p: Predicate, grant: nat -> bool) returns (ok: bool, count: nat, failed: nat)
    requires DbOK(db)
    modifies db`pages, db`mayHaveFreeSlots, db`freeHead, db`free, db`place, db`root, db`rows, db`rowCount
    ensures DbOK(db)
    ensures ok <==> AllGranted(old(TableContents(db)), db.columns, p, grant)
    ensures ok ==> TableContents(db) == Without(old(TableContents(db)), db.columns, p)
    ensures ok ==> count + db.rowCount == old(db.rowCount)
    ensures count == if ok then |Matching(old(TableContents(db)), db.columns, p)| else 0
    ensures !ok ==> !grant(failed) && db.Now() == old(db.Now()) && db.HeapNow() == old(db.HeapNow()) && db.rowCount == old(db.rowCount)
  {
    count := 0;
    var ids;
    ids, ok, failed := CollectAndLock(db, p, grant);
    if !ok {
      return;
    }
    RowsCounted(db);
    ghost var c := TableContents(db);
    count := ApplyDelete(db, ids, p);
    AllDeleted(c, ids, db.columns, p);
    WithoutMatching(c, db.columns, p);
    RowsCounted(db);
  }

  lemma {:induction false} IdsInRange(rows: map<nat, RowRef>, nextId: nat, c: map<nat, Bytes>, ids: seq<nat>)
    requires c.Keys == rows.Keys && nextId <= SIGNED_LIMIT
    requires forall k {:trigger k in rows} :: k in rows ==> 1 <= k < nextId
    requires forall k :: k in ids ==> k in c
    ensures forall i :: 0 <= i < |ids| ==> ids[i] < KEY_LIMIT
  {
    forall i | 0 <= i < |ids|
      ensures ids[i] < KEY_LIMIT
    {
      assert ids[i] in ids;
      assert ids[i] in rows;
    }
  }

  /* ---------- updating ---------- */

  /** The stored row with one column set. */
  ghost function NewVersion(cols: seq<Column>, row: Bytes, col: nat, l: Literal): Bytes {
    if col < |cols| && S.ColumnsOK(cols) && |row| == S.EndOf(cols, |cols|)
       && S.RowOK(cols, S.Decode(cols, row)[col := FromLiteral(cols[col].kind, l)])
    then S.Encode(cols, S.Decode(cols, row)[col := FromLiteral(cols[col].kind, l)])
    else row
  }

  /** Setting a column other than the id keeps the id, every other column, and every byte outside the
      column; the column itself then reads as the literal, a string as far as it fits. */
  lemma {:induction false} NewVersionIsLocal(cols: seq<Column>, row: Bytes, col: nat, l: Literal)
    requires |cols| > 0 && IsIdColumn(cols[0]) && Canonical(cols, row) && IdOf(row) < SIGNED_LIMIT
    requires 0 < col < |cols| && LiteralOK(l)
    ensures S.ColumnsOK(cols) && |row| == S.EndOf(cols, |cols|) && |NewVersion(cols, row, col, l)| == |row|
    ensures S.RowOK(cols, S.Decode(cols, row)[col := FromLiteral(cols[col].kind, l)])
    ensures Canonical(cols, NewVersion(cols, row, col, l)) && IdOf(NewVersion(cols, row, col, l)) == IdOf(row)
    ensures forall j :: 0 <= j < |cols| && j != col ==> S.Decode(cols, NewVersion(cols, row, col, l))[j] == S.Decode(cols, row)[j]
    ensures cols[col].kind == S.KInt ==> S.Decode(cols, NewVersion(cols, row, col, l))[col] == S.IntV(l.asInt)
    ensures cols[col].kind == S.KBigint ==> S.Decode(cols, NewVersion(cols, row, col, l))[col] == S.BigV(l.asBig)
    ensures cols[col].kind == S.KVarchar ==>
              var d := S.Decode(cols, NewVersion(cols, row, col, l))[col];
              d.StrV? && d.s <= l.asStr && |d.s| == if |l.asStr| < cols[col].size - 1 then |l.asStr| else cols[col].size - 1
    ensures forall k :: 0 <= k < |row| && !(S.EndOf(cols, col) <= k < S.EndOf(cols, col) + cols[col].size) ==>
              NewVersion(cols, row, col, l)[k] == row[k]
  {
    var vs := DecodedRow(cols, row);
    assert S.ValueOK(cols[col], FromLiteral(cols[col].kind, l));
    var back := S.UpdateIsLocal(cols, vs, col, FromLiteral(cols[col].kind, l));
    EncodedId(cols, back, IdOf(row));
  }

  /** What an UPDATE writes is again a proper row with the same id. */
  lemma {:induction false} NewVersionStored(cols: seq<Column>, row: Bytes, col: nat, l: Literal) returns (ws: seq<S.Value>, row': Bytes)
    requires |cols| > 0 && IsIdColumn(cols[0]) && Canonical(cols, row) && IdOf(row) < SIGNED_LIMIT
    requires 0 < col < |cols| && LiteralOK(l)
    ensures S.ColumnsOK(cols) && |row| == S.EndOf(cols, |cols|)
    ensures ws == S.Decode(cols, row)[col := FromLiteral(cols[col].kind, l)] && S.RowOK(cols, ws)
    ensures row' == S.Encode(cols, ws) == NewVersion(cols, row, col, l)
    ensures Canonical(cols, row') && IdOf(row') == IdOf(row) && |row'| == |row|
  {
    NewVersionIsLocal(cols, row, col, l);
    ws := S.Decode(cols, row)[col := FromLiteral(cols[col].kind, l)];
    row' := S.Encode(cols, ws);
  }

  /** The column an UPDATE may set: the first of that name, unless there is none or it is the system's. */
  function UpdateTarget(cols: seq<Column>, field: string): (r: int)
    ensures r >= 0 ==> r < |cols| && cols[r].name == field && !cols[r].isSystem && forall j :: 0 <= j < r ==> cols[j].name != field
    ensures r < 0 ==> r == -1
    ensures r == -1 <==> forall i :: 0 <= i < |cols| && cols[i].name == field && (forall j :: 0 <= j < i ==> cols[j].name != field) ==> cols[i].isSystem
  {
    var i := FindColumnFrom(cols, field, 0);
    if i < 0 then -1 else if cols[i].isSystem then -1 else i
  }

  /** Column i is the first of that name, and not the system's. */
  predicate NamedColumn(cols: seq<Column>, field: string, i: int) {
    0 <= i < |cols| && cols[i].name == field && !cols[i].isSystem && forall j :: 0 <= j < i ==> cols[j].name != field
  }

  method UpdateRow(db: Store, id: nat, ref: RowRef, vs: seq<S.Value>, col: nat, l: Literal)
    requires DbOK(db) && id in db.rows && ref == db.rows[id] && 0 < col < |db.columns| && LiteralOK(l)
    requires S.RowOK(db.columns, vs) && S.Encode(db.columns, vs) == TableContents(db)[id] && S.Decode(db.columns, TableContents(db)[id]) == vs
    modifies db`pages
    ensures DbOK(db)
    ensures TableContents(db) == old(TableContents(db))[id := NewVersion(db.columns, old(TableContents(db))[id], col, l)]
  {
    ghost var h, row0 := db.HeapNow(), TableContents(db)[id];
    StoredRow(h, db.rows, db.columns, db.nextId, db.rowCount, id);
    ghost var ws', row' := NewVersionStored(db.columns, row0, col, l);
    var ws := vs[col := FromLiteral(db.columns[col].kind, l)];
    var buf := S.Serialize(db.columns, ws);
    HeapOverwrite(db, ref, buf);
    Replaced(h, db.HeapNow(), db.rows, db.columns, id, buf);
  }

  method UpdateIfMatching(db: Store, id: nat, p: Predicate, col: nat, l: Literal) returns (found: bool)
    requires DbOK(db) && id < KEY_LIMIT && LiteralOK(l) && 0 < col < |db.columns|
    modifies db`pages
    ensures DbOK(db)
    ensures found <==> Hit(old(TableContents(db)), id, db.columns, p)
    ensures OneSet(old(TableContents(db)), TableContents(db), id, db.columns, p, col, l)
  {
    var ref, vs;
    found, ref, vs := FetchMatching(db, id, p);
    if found {
      UpdateRow(db, id, ref, vs, col, l);
    }
  }

  /** The row after an UPDATE: the new version if it satisfies the predicate. */
  ghost function Revised(cols: seq<Column>, row: Bytes, p: Predicate, col: nat, l: Literal): Bytes {
    if RowMatches(cols, row, p) then NewVersion(cols, row, col, l) else row
  }

  /** The table with the column set in the listed rows that satisfy the predicate. */
  ghost function Updated(c: map<nat, Bytes>, ids: set<nat>, cols: seq<Column>, p: Predicate, col: nat, l: Literal): map<nat, Bytes> {
    map k | k in c :: if k in ids then Revised(cols, c[k], p, col, l) else c[k]
  }

  ghost predicate OneSet(d: map<nat, Bytes>, d': map<nat, Bytes>, id: nat, cols: seq<Column>, p: Predicate, col: nat, l: Literal) {
    d' == if id in d then d[id := Revised(cols, d[id], p, col, l)] else d
  }

  /** The row is there and satisfies the predicate. */
  ghost predicate Hit(c: map<nat, Bytes>, id: nat, cols: seq<Column>, p: Predicate) {
    id in c && RowMatches(cols, c[id], p)
  }

  /** The table between one id and the next, and how many rows were changed so far. */
  datatype Turn = Turn(table: map<nat, Bytes>, count: nat)

  ghost predicate TurnOK(t: Turn, t': Turn, id: nat, cols: seq<Column>, p: Predicate, col: nat, l: Literal) {
    && OneSet(t.table, t'.table, id, cols, p, col, l)
    && t'.count == t.count + if Hit(t.table, id, cols, p) then 1 else 0
  }

  ghost predicate Updates(hist: seq<Turn>, ids: seq<nat>, n: nat, cols: seq<Column>, p: Predicate, col: nat, l: Literal)
    requires n <= |ids|
  {
    |hist| == n + 1 && hist[0].count == 0
    && forall k {:trigger TurnOK(hist[k], hist[k + 1], ids[k], cols, p, col, l)} :: 0 <= k < n ==>
         TurnOK(hist[k], hist[k + 1], ids[k], cols, p, col, l)
  }

  lemma {:induction false} UpdatedNext(hist: seq<Turn>, ids: seq<nat>, n: nat, cols: seq<Column>, p: Predicate, col: nat, l: Literal,
                    d: map<nat, Bytes>, found: bool) returns (hist': seq<Turn>)
    requires n < |ids| && Updates(hist, ids, n, cols, p, col, l)
    requires OneSet(hist[n].table, d, ids[n], cols, p, col, l) && (found <==> Hit(hist[n].table, ids[n], cols, p))
    ensures hist' == hist + [Turn(d, hist[n].count + if found then 1 else 0)] && Updates(hist', ids, n + 1, cols, p, col, l)
  {
    hist' := hist + [Turn(d, hist[n].count + if found then 1 else 0)];
    forall k | 0 <= k < n + 1
      ensures TurnOK(hist'[k], hist'[k + 1], ids[k], cols, p, col, l)
    {
      assert k < n ==> TurnOK(hist[k], hist[k + 1], ids[k], cols, p, col, l);
    }
  }

  lemma {:induction false} UpdatedInTurn(hist: seq<Turn>, ids: seq<nat>, n: nat, m: nat,
                                         cols: seq<Column>, p: Predicate, col: nat, l: Literal)
    requires n <= m <= |ids| && Updates(hist, ids, m, cols, p, col, l) && R.Ascending(ids)
    ensures hist[n].table == Updated(hist[0].table, IdSet(ids[..n]), cols, p, col, l)
  {
    if n > 0 {
      UpdatedInTurn(hist, ids, n - 1, m, cols, p, col, l);
      IdSetStep(ids, n - 1);
      assert TurnOK(hist[n - 1], hist[n - 1 + 1], ids[n - 1], cols, p, col, l);
      UpdatedStep(hist[0].table, IdSet(ids[..n - 1]), ids[n - 1], cols, p, col, l, hist[n - 1].table, hist[n].table);
    } else {
      NothingUpdated(hist[0].table, cols, p, col, l);
    }
  }

  lemma {:induction false} NothingUpdated(c: map<nat, Bytes>, cols: seq<Column>, p: Predicate, col: nat, l: Literal)
    ensures Updated(c, {}, cols, p, col, l) == c
  {
  }

  lemma {:induction false} UpdatedStep(c: map<nat, Bytes>, done: set<nat>, id: nat, cols: seq<Column>, p: Predicate, col: nat, l: Literal,
                    d: map<nat, Bytes>, d': map<nat, Bytes>)
    requires id !in done && d == Updated(c, done, cols, p, col, l) && OneSet(d, d', id, cols, p, col, l)
    ensures d' == Updated(c, done + {id}, cols, p, col, l)
  {
  }

  /** One id after another comes to the same as all at once, since no id is listed twice. */
  lemma {:induction false} UpdatedAll(hist: seq<Turn>, ids: seq<nat>, cols: seq<Column>, p: Predicate, col: nat, l: Literal)
    requires R.Ascending(ids) && Updates(hist, ids, |ids|, cols, p, col, l)
    ensures hist[|ids|].table == Updated(hist[0].table, IdSet(ids), cols, p, col, l)
  {
    UpdatedInTurn(hist, ids, |ids|, |ids|, cols, p, col, l);
    assert ids[..|ids|] == ids;
  }

  /** When the ids are those of all matching rows, every one of them is still found to match. */
  lemma {:induction false} AllHit(hist: seq<Turn>, ids: seq<nat>, n: nat, cols: seq<Column>, p: Predicate, col: nat, l: Literal)
    requires n <= |ids| && R.Ascending(ids) && Updates(hist, ids, |ids|, cols, p, col, l) && Collects(hist[0].table, ids, cols, p)
    ensures hist[n].count == n
  {
    if n > 0 {
      AllHit(hist, ids, n - 1, cols, p, col, l);
      UpdatedInTurn(hist, ids, n - 1, |ids|, cols, p, col, l);
      IdSetStep(ids, n - 1);
      assert ids[n - 1] in ids;
      StillMatches(hist[0].table, IdSet(ids[..n - 1]), ids[n - 1], cols, p, col, l, hist[n - 1].table);
      assert TurnOK(hist[n - 1], hist[n - 1 + 1], ids[n - 1], cols, p, col, l);
    }
  }

  /** A row whose turn has not come is as it was. */
  lemma {:induction false} StillMatches(c: map<nat, Bytes>, done: set<nat>, id: nat, cols: seq<Column>, p: Predicate, col: nat, l: Literal, d: map<nat, Bytes>)
    requires id !in done && d == Updated(c, done, cols, p, col, l) && id in c && RowMatches(cols, c[id], p)
    ensures Hit(d, id, cols, p)
  {
    assert d[id] == c[id];
  }

  lemma {:induction false} CountIds(ids: seq<nat>)
    requires forall i, j :: 0 <= i < j < |ids| ==> ids[i] != ids[j]
    ensures |IdSet(ids)| == |ids|
  {
    if ids != [] {
      var n := |ids| - 1;
      CountIds(ids[..n]);
      assert IdSet(ids) == IdSet(ids[..n]) + {ids[n]};
      assert ids[n] !in ids[..n];
    }
  }

  /** The number of rows that an UPDATE reports is the number of rows that satisfy its predicate. */
  lemma {:induction false} CountsMatching(hist: seq<Turn>, ids: seq<nat>, cols: seq<Column>, p: Predicate, col: nat, l: Literal)
    requires R.Ascending(ids) && Updates(hist, ids, |ids|, cols, p, col, l) && Collects(hist[0].table, ids, cols, p)
    ensures hist[|ids|].count == |Matching(hist[0].table, cols, p)|
  {
    AllHit(hist, ids, |ids|, cols, p, col, l);
    CountIds(ids);
    assert IdSet(ids) == Matching(hist[0].table, cols, p);
  }

  /** The second pass of an UPDATE. `hist` are the states of the table between one id and the next. */
  method ApplyUpdate(db: Store, ids: seq<nat>, p: Predicate, col: nat, l: Literal) returns (count: nat, ghost hist: seq<Turn>)
    requires DbOK(db) && LiteralOK(l) && 0 < col < |db.columns|
    requires forall i {:trigger ids[i]} :: 0 <= i < |ids| ==> ids[i] < KEY_LIMIT
    modifies db`pages
    ensures DbOK(db)
    ensures Updates(hist, ids, |ids|, db.columns, p, col, l)
    ensures hist[0].table == old(TableContents(db)) && hist[|ids|] == Turn(TableContents(db), count)
  {
    hist := [Turn(TableContents(db), 0)];
    count := 0;
    var i := 0;
    while i < |ids|
      invariant 0 <= i <= |ids| && DbOK(db)
      invariant Updates(hist, ids, i, db.columns, p, col, l)
      invariant hist[0].table == old(TableContents(db)) && hist[i] == Turn(TableContents(db), count)
    {
      count, hist := UpdateNext(db, ids, i, p, col, l, count, hist);
      i := i + 1;
    }
  }

  /** One round of the loop: the row is read again, and set and counted if it still matches. */
  method UpdateNext(db: Store, ids: seq<nat>, i: nat, p: Predicate, col: nat, l: Literal, count: nat, ghost hist: seq<Turn>)
    returns (count': nat, ghost hist': seq<Turn>)
    requires DbOK(db) && LiteralOK(l) && 0 < col < |db.columns| && i < |ids| && ids[i] < KEY_LIMIT
    requires Updates(hist, ids, i, db.columns, p, col, l) && hist[i] == Turn(TableContents(db), count)
    modifies db`pages
    ensures DbOK(db)
    ensures Updates(hist', ids, i + 1, db.columns, p, col, l) && hist'[0] == hist[0] && hist'[i + 1] == Turn(TableContents(db), count')
  {
    var found := UpdateIfMatching(db, ids[i], p, col, l);
    hist' := UpdatedNext(hist, ids, i, db.columns, p, col, l, TableContents(db), found);
    count' := if found then count + 1 else count;
  }

  /** The table with the column set in every row that satisfies the predicate. */
  ghost function WithColumnSet(c: map<nat, Bytes>, cols: seq<Column>, p: Predicate, col: nat, l: Literal): map<nat, Bytes> {
    map k | k in c :: Revised(cols, c[k], p, col, l)
  }

  lemma {:induction false} AllUpdated(c: map<nat, Bytes>, ids: seq<nat>, cols: seq<Column>, p: Predicate, col: nat, l: Literal)
    requires Collects(c, ids, cols, p)
    ensures Updated(c, IdSet(ids), cols, p, col, l) == WithColumnSet(c, cols, p, col, l)
  {
  }

  /** UPDATE by a scan. */
  method ExecUpdateScan(db: Store, p: Predicate, field: string, l: Literal, grant: nat -> bool) returns (ok: bool, count: nat)
    requires DbOK(db) && LiteralOK(l)
    modifies db`pages
    ensures DbOK(db)
    ensures ok <==> UpdateTarget(db.columns, field) >= 0 && AllGranted(old(TableContents(db)), db.columns, p, grant)
    ensures ok ==> NamedColumn(db.columns, field, UpdateTarget(db.columns, field))
    ensures !ok ==> db.pages == old(db.pages)
    ensures ok ==> TableContents(db) == WithColumnSet(old(TableContents(db)), db.columns, p, UpdateTarget(db.columns, field), l)
    ensures count == if ok then |Matching(old(TableContents(db)), db.columns, p)| else 0
  {
    count := 0;
    var col := UpdateTarget(db.columns, field);
    if col < 0 {
      return false, 0;
    }
    var ids, failed;
    ids, ok, failed := CollectAndLock(db, p, grant);
    if !ok {
      return;
    }
    ghost var c := TableContents(db);
    ghost var hist;
    count, hist := ApplyUpdate(db, ids, p, col, l);
    UpdatedAll(hist, ids, db.columns, p, col, l);
    CountsMatching(hist, ids, db.columns, p, col, l);
    AllUpdated(c, ids, db.columns, p, col, l);
  }

  /** UPDATE WHERE id = n. */
  method ExecIndexUpdate(db: Store, id: nat, field: string, l: Literal) returns (ok: bool, found: bool)
    requires DbOK(db) && id < KEY_LIMIT && LiteralOK(l)
    modifies db`pages
    ensures DbOK(db)
    ensures ok <==> UpdateTarget(db.columns, field) >= 0
    ensures ok ==> NamedColumn(db.columns, field, UpdateTarget(db.columns, field))
    ensures found <==> ok && id in old(TableContents(db))
    ensures !found ==> db.pages == old(db.pages)
    ensures found ==> TableContents(db) == old(TableContents(db))[id := NewVersion(db.columns, old(TableContents(db))[id], UpdateTarget(db.columns, field), l)]
  {
    var col := UpdateTarget(db.columns, field);
    if col < 0 {
      return false, false;
    }
    ok := true;
    var r := Lookup(db, id);
    if r == None {
      return ok, false;
    }
    var got, vs := ReadRow(db, id, r.value);
    UpdateRow(db, id, r.value, vs, col, l);
    found := true;
  }
}
