/** Whole runs of statements: whatever access path each takes, the database behaves as a finite map
    from ids to rows. */
module Runs {
  import opened Pages
  import opened Tree
  import opened TreeHeight
  import opened HeapFile
  import opened Store
  import opened TableHeap
  import opened Database
  import opened Predicates
  import opened Executor
  import opened ScanStatements
  import opened Tables
  import S = Schema

  /** A parsed statement that changes something, and how the lock table answers its requests. */
  datatype Command =
    | CreateTable(defs: seq<ColumnDef>)
    | InsertRow(ls: seq<Literal>, granted: bool)
    | DeleteRows(p: Predicate, grant: nat -> bool)
    | UpdateRows(p: Predicate, field: string, literal: Literal, grant: nat -> bool)
    | DropTable

  /** What a user can see: the columns, the rows by id, and the next id. */
  datatype TableState = TableState(cols: seq<Column>, rows: map<nat, Bytes>, nextId: nat)

  predicate CommandOK(c: Command, pageSize: nat) {
    match c
    case CreateTable(defs) => DefsOK(defs, pageSize)
    case InsertRow(ls, _) => forall i :: 0 <= i < |ls| ==> LiteralOK(ls[i])
    case DeleteRows(p, _) => p.IdIs? ==> p.id < KEY_LIMIT
    case UpdateRows(p, _, l, _) => LiteralOK(l) && (p.IdIs? ==> p.id < KEY_LIMIT)
    case DropTable => true
  }

  /** A statement about one id locks that id; any other locks every row it is about to change. */
  ghost predicate Locked(s: TableState, p: Predicate, grant: nat -> bool) {
    if p.IdIs? then grant(p.id) else AllGranted(s.rows, s.cols, p, grant)
  }

  /** What a statement means, with no word about pages, trees or access paths. */
  ghost function Effect(s: TableState, c: Command): TableState {
    match c
    case CreateTable(defs) =>
      if s.cols == [] then s.(cols := S.Layout(Declared(defs), |Declared(defs)|), rows := map[]) else s
    case InsertRow(ls, granted) =>
      if s.cols == [] then s
      else if !granted || !S.RowOK(s.cols, NewRow(s.cols, s.nextId, ls)) then s.(nextId := s.nextId + 1)
      else s.(rows := s.rows[s.nextId := S.Encode(s.cols, NewRow(s.cols, s.nextId, ls))], nextId := s.nextId + 1)
    case DeleteRows(p, grant) =>
      if Locked(s, p, grant) then s.(rows := Without(s.rows, s.cols, p)) else s
    case UpdateRows(p, field, l, grant) =>
      if Locked(s, p, grant) && UpdateTarget(s.cols, field) >= 0
      then s.(rows := WithColumnSet(s.rows, s.cols, p, UpdateTarget(s.cols, field), l)) else s
    case DropTable => if s.cols == [] then s else TableState([], map[], 1)
  }

  ghost function StateOf(db: Store): TableState
    reads db`pages, db`rows, db`firstHeap, db`lastHeap, db`mayHaveFreeSlots, db`heap, db`rowSize, db`columns, db`nextId
  {
    TableState(db.columns, TableContents(db), db.nextId)
  }

  /** Of the rows on file, the predicate on the id picks the one with that id and no other. */
  lemma {:induction false} IdPicksOne(h: Heap, rows: map<nat, RowRef>, cols: seq<Column>, nextId: nat, rowCount: nat, id: nat, k: nat)
    requires HeapOK(h) && Filed(h, rows, cols, nextId, rowCount) && (cols != [] ==> IsIdColumn(cols[0]))
    requires id < KEY_LIMIT && k in rows
    ensures RowMatches(cols, Contents(h, rows)[k], IdIs(id)) <==> k == id
  {
    StoredRow(h, rows, cols, nextId, rowCount, k);
    var vs := DecodedRow(cols, Contents(h, rows)[k]);
  }

  ghost predicate PicksOne(c: map<nat, Bytes>, cols: seq<Column>, id: nat) {
    forall k :: k in c ==> (RowMatches(cols, c[k], IdIs(id)) <==> k == id)
  }

  /** Taking the index instead of a scan means the same. */
  lemma {:induction false} IndexMeansScan(h: Heap, rows: map<nat, RowRef>, cols: seq<Column>, nextId: nat, rowCount: nat, id: nat) returns (c: map<nat, Bytes>)
    requires HeapOK(h) && Filed(h, rows, cols, nextId, rowCount) && (cols != [] ==> IsIdColumn(cols[0])) && id < KEY_LIMIT
    ensures c == Contents(h, rows) && Without(c, cols, IdIs(id)) == c - {id}
    ensures forall col, l :: WithColumnSet(c, cols, IdIs(id), col, l) == if id in c then c[id := NewVersion(cols, c[id], col, l)] else c
  {
    c := Contents(h, rows);
    forall k | k in c
      ensures RowMatches(cols, c[k], IdIs(id)) <==> k == id
    {
      IdPicksOne(h, rows, cols, nextId, rowCount, id, k);
    }
    DeletesOne(c, cols, id);
    forall col, l
      ensures WithColumnSet(c, cols, IdIs(id), col, l) == if id in c then c[id := NewVersion(cols, c[id], col, l)] else c
    {
      SetsOne(c, cols, id, col, l);
    }
  }

  lemma {:induction false} DeletesOne(c: map<nat, Bytes>, cols: seq<Column>, id: nat)
    requires PicksOne(c, cols, id)
    ensures Without(c, cols, IdIs(id)) == c - {id}
  {
  }

  lemma {:induction false} SetsOne(c: map<nat, Bytes>, cols: seq<Column>, id: nat, col: nat, l: Literal)
    requires PicksOne(c, cols, id)
    ensures WithColumnSet(c, cols, IdIs(id), col, l) == if id in c then c[id := NewVersion(cols, c[id], col, l)] else c
  {
  }

  /** DELETE: by the index when the WHERE clause names one id, by a scan otherwise. */
  method Delete(db: Store, p: Predicate, grant: nat -> bool)
    requires DbOK(db) && (p.IdIs? ==> p.id < KEY_LIMIT)
    modifies db`pages, db`mayHaveFreeSlots, db`freeHead, db`free, db`place, db`root, db`rows, db`rowCount
    ensures DbOK(db)
    ensures TableContents(db) == if Locked(old(StateOf(db)), p, grant) then Without(old(TableContents(db)), db.columns, p) else old(TableContents(db))
  {
    if p.IdIs? {
      if !grant(p.id) {
        return;
      }
      ghost var c := IndexMeansScan(db.HeapNow(), db.rows, db.columns, db.nextId, db.rowCount, p.id);
      var found := ExecIndexDelete(db, p.id);
    } else {
      var ok, count, failed := ExecDeleteScan(db, p, grant);
    }
  }

  method Update(db: Store, p: Predicate, field: string, l: Literal, grant: nat -> bool)
    requires DbOK(db) && LiteralOK(l) && (p.IdIs? ==> p.id < KEY_LIMIT)
    modifies db`pages
    ensures DbOK(db)
    ensures TableContents(db) == if Locked(old(StateOf(db)), p, grant) && UpdateTarget(db.columns, field) >= 0
      then WithColumnSet(old(TableContents(db)), db.columns, p, UpdateTarget(db.columns, field), l) else old(TableContents(db))
  {
    if p.IdIs? {
      if !grant(p.id) {
        return;
      }
      ghost var c := IndexMeansScan(db.HeapNow(), db.rows, db.columns, db.nextId, db.rowCount, p.id);
      var ok, found := ExecIndexUpdate(db, p.id, field, l);
    } else {
      var ok, count := ExecUpdateScan(db, p, field, l, grant);
    }
  }

  /** One statement. */
  method Execute(db: Store, c: Command)
    requires DbOK(db) && CommandOK(c, db.pageSize)
    requires db.nextId < SIGNED_LIMIT && db.nextPage + MAX_TREE_DEPTH + 2 <= PAGE_LIMIT
    modifies db
    ensures DbOK(db) && StateOf(db) == Effect(old(StateOf(db)), c)
  {
    match c
    case CreateTable(defs) =>
      var ok := ExecCreateTable(db, defs);
    case InsertRow(ls, granted) =>
      if |db.columns| > 0 {
        NewRowOK(db.columns, db.nextId, ls);
      }
      ghost var row;
      var ok;
      ok, row := ExecInsert(db, ls, granted);
    case DeleteRows(p, grant) =>
      Delete(db, p, grant);
    case UpdateRows(p, field, l, grant) =>
      Update(db, p, field, l, grant);
    case DropTable =>
      var ok := ExecDropTable(db);
  }

  ghost function After(s: TableState, cs: seq<Command>, n: nat): TableState
    requires n <= |cs|
  {
    if n == 0 then s else Effect(After(s, cs, n - 1), cs[n - 1])
  }

  /** Any run of statements on a sound database leaves it sound, with the contents the statements mean.
      The run stops only when page numbers or ids run out. */
  method RunAll(db: Store, cs: seq<Command>) returns (done: nat)
    requires DbOK(db) && forall i :: 0 <= i < |cs| ==> CommandOK(cs[i], db.pageSize)
    modifies db
    ensures done <= |cs| && DbOK(db) && StateOf(db) == After(old(StateOf(db)), cs, done)
    ensures done < |cs| ==> db.nextId >= SIGNED_LIMIT || db.nextPage + MAX_TREE_DEPTH + 2 > PAGE_LIMIT
  {
    done := 0;
    while done < |cs|
      invariant done <= |cs| && DbOK(db) && StateOf(db) == After(old(StateOf(db)), cs, done)
    {
      if db.nextId >= SIGNED_LIMIT || db.nextPage + MAX_TREE_DEPTH + 2 > PAGE_LIMIT {
        return;
      }
      Execute(db, cs[done]);
      done := done + 1;
    }
  }

  /** From a new file on, at the end of any run: live rows and index entries match one to one, every id
      has been handed out, the counter is right, and every page is in exactly one place. */
  method RunFromScratch(caps: Caps, pageSize: nat, cs: seq<Command>) returns (db: Store, done: nat)
    requires CapsOK(caps) && 24 <= pageSize < 0x1_0000 && forall i :: 0 <= i < |cs| ==> CommandOK(cs[i], pageSize)
    ensures fresh(db) && done <= |cs| && StateOf(db) == After(TableState([], map[], 1), cs, done)
    ensures Agrees(db.HeapNow(), db.rows, db.columns) && db.rowCount == |db.rows|
    ensures forall k :: k in db.rows ==> 1 <= k < db.nextId
    ensures forall p: PageId {:trigger p in db.heap} :: 1 <= p < db.nextPage <==> p in db.heap || p in db.place || p in db.free
  {
    db := CreateDatabase(caps, pageSize);
    done := RunAll(db, cs);
    NoPageLost(db);
  }

  lemma {:induction false} NoPageLost(db: Store)
    requires DbOK(db)
    ensures forall p: PageId {:trigger p in db.heap} :: 1 <= p < db.nextPage <==> p in db.heap || p in db.place || p in db.free
  {
    forall p: PageId
      ensures 1 <= p < db.nextPage <==> p in db.heap || p in db.place || p in db.free
    {
      PagesConserved(db, p);
    }
  }
}
