/** The statements that read: by id, by a range of ids, by a scan, in order, and by counting. */
module Queries {
  import opened Pages
  import opened Tree
  import opened TreeDescent
  import opened HeapFile
  import opened Store
  import opened TableHeap
  import opened Database
  import opened Predicates
  import opened Executor
  import opened ScanStatements
  import S = Schema
  import O = Ordering
  import Q = Sorting
  import T = TopK

  /* ---------- SELECT by a scan, and COUNT ---------- */

  /** The id in column 0 of a row. */
  function IdIn(row: O.Row): nat {
    if |row| > 0 && row[0].BigV? && row[0].b >= 0 then row[0].b else 0
  }

  function IdsOf(rows: seq<O.Row>): (ids: seq<nat>)
    ensures |ids| == |rows| && forall i :: 0 <= i < |rows| ==> ids[i] == IdIn(rows[i])
  {
    seq(|rows|, i requires 0 <= i < |rows| => IdIn(rows[i]))
  }

  /** Rows of the table, as their stored bytes decode, none of them twice. */
  ghost predicate Lists(rows: seq<O.Row>, c: map<nat, Bytes>, cols: seq<Column>) {
    && (forall i, j :: 0 <= i < j < |rows| ==> IdIn(rows[i]) != IdIn(rows[j]))
    && (forall i {:trigger rows[i]} :: 0 <= i < |rows| ==> IsRow(c, cols, IdIn(rows[i]), rows[i]))
  }

  ghost predicate IsRow(c: map<nat, Bytes>, cols: seq<Column>, id: nat, row: O.Row) {
    && id in c && S.ColumnsOK(cols) && |c[id]| == S.EndOf(cols, |cols|)
    && row == S.Decode(cols, c[id]) && S.RowOK(cols, row)
  }

  /** Two places of a scan hold rows with different ids. */
  lemma {:induction false} ScanIdsDiffer(h: Heap, rows: map<nat, RowRef>, cols: seq<Column>, nextId: nat, rowCount: nat, i: nat, j: nat)
    requires HeapOK(h) && Filed(h, rows, cols, nextId, rowCount) && i < j < |RowsFrom(h, 0)|
    ensures IdOf(RowsFrom(h, 0)[i].row) != IdOf(RowsFrom(h, 0)[j].row)
  {
    AllRows(h);
    ScannedRow(h, rows, cols, nextId, rowCount, i);
    ScannedRow(h, rows, cols, nextId, rowCount, j);
  }

  /** Scan the heap and read the values of the rows that satisfy the predicate. */
  method SelectScan(db: Store, p: Predicate) returns (rows: seq<O.Row>)
    requires DbOK(db)
    ensures Lists(rows, TableContents(db), db.columns)
    ensures IdSet(IdsOf(rows)) == Matching(TableContents(db), db.columns, p)
  {
    ghost var h, c := db.HeapNow(), TableContents(db);
    var out := HeapScan(db, _ => true);
    assert out == RowsFrom(h, 0);
    rows := [];
    ghost var ids: seq<nat> := [];
    var n := 0;
    while n < |out|
      invariant 0 <= n <= |out| && Lists(rows, c, db.columns) && ids == IdsOf(rows)
      invariant forall k :: k in ids <==> Picked(out, n, db.columns, p, k)
    {
      ghost var ids0 := ids;
      var hit, vs := TestValues(db, out[n], n, p);
      NotYetPicked(h, db.rows, db.columns, db.nextId, db.rowCount, n, p);
      if hit {
        ids := OneMore(rows, c, db.columns, vs);
        rows := rows + [vs];
      }
      PickedMore(out, n, db.columns, p, ids0, ids);
      n := n + 1;
    }
    forall k
      ensures k in ids <==> k in Matching(c, db.columns, p)
    {
      PickedAll(h, db.rows, db.columns, db.nextId, db.rowCount, p, k);
    }
  }

  method TestValues(db: Store, r: HeapRow, ghost n: nat, p: Predicate) returns (hit: bool, vs: O.Row)
    requires DbOK(db) && n < |RowsFrom(db.HeapNow(), 0)| && r == RowsFrom(db.HeapNow(), 0)[n]
    ensures hit <==> RowMatches(db.columns, r.row, p)
    ensures IsRow(TableContents(db), db.columns, IdOf(r.row), vs) && IdIn(vs) == IdOf(r.row)
  {
    ScannedRow(db.HeapNow(), db.rows, db.columns, db.nextId, db.rowCount, n);
    ghost var ws := DecodedRow(db.columns, r.row);
    vs := S.Deserialize(db.columns, r.row);
    hit := MatchPredicate(db.columns, vs, p);
  }

  lemma {:induction false} NotYetPicked(h: Heap, rows: map<nat, RowRef>, cols: seq<Column>, nextId: nat, rowCount: nat, n: nat, p: Predicate)
    requires HeapOK(h) && Filed(h, rows, cols, nextId, rowCount) && n < |RowsFrom(h, 0)|
    ensures !Picked(RowsFrom(h, 0), n, cols, p, IdOf(RowsFrom(h, 0)[n].row))
  {
    forall j | 0 <= j < n
      ensures IdOf(RowsFrom(h, 0)[j].row) != IdOf(RowsFrom(h, 0)[n].row)
    {
      ScanIdsDiffer(h, rows, cols, nextId, rowCount, j, n);
    }
  }

  lemma {:induction false} OneMore(rows: seq<O.Row>, c: map<nat, Bytes>, cols: seq<Column>, row: O.Row) returns (ids: seq<nat>)
    requires Lists(rows, c, cols) && IsRow(c, cols, IdIn(row), row) && IdIn(row) !in IdsOf(rows)
    ensures Lists(rows + [row], c, cols) && ids == IdsOf(rows + [row]) == IdsOf(rows) + [IdIn(row)]
  {
    ids := IdsOf(rows) + [IdIn(row)];
    assert forall i :: 0 <= i < |rows| ==> IdIn(rows[i]) in IdsOf(rows) by {
      assert forall i :: 0 <= i < |rows| ==> IdsOf(rows)[i] == IdIn(rows[i]);
    }
  }

  /** Every row satisfies the empty WHERE clause. */
  lemma {:induction false} EveryRowMatches(h: Heap, rows: map<nat, RowRef>, cols: seq<Column>, nextId: nat, rowCount: nat)
    requires HeapOK(h) && Filed(h, rows, cols, nextId, rowCount)
    requires cols != [] ==> IsIdColumn(cols[0])
    ensures Matching(Contents(h, rows), cols, Everything) == rows.Keys
  {
    forall k | k in rows
      ensures RowMatches(cols, Contents(h, rows)[k], Everything)
    {
      StoredRow(h, rows, cols, nextId, rowCount, k);
      var vs := DecodedRow(cols, Contents(h, rows)[k]);
    }
  }

  /** COUNT(*): without a WHERE clause the counter in the header is the number of rows a scan would find. */
  method ExecCount(db: Store, p: Predicate) returns (n: nat)
    requires DbOK(db)
    ensures n == |Matching(TableContents(db), db.columns, p)|
  {
    if p == Everything {
      EveryRowMatches(db.HeapNow(), db.rows, db.columns, db.nextId, db.rowCount);
      n := db.rowCount;
    } else {
      var rows := SelectScan(db, p);
      CountIds(IdsOf(rows));
      n := |rows|;
    }
  }

  /* ---------- SELECT by id and by a range of ids ---------- */

  method ExecIndexLookup(db: Store, id: nat) returns (row: Option<O.Row>)
    requires DbOK(db) && id < KEY_LIMIT
    ensures row.Some? <==> id in TableContents(db)
    ensures row.Some? ==> IsRow(TableContents(db), db.columns, id, row.value)
  {
    var r := Lookup(db, id);
    if r == None {
      return None;
    }
    var ok, vs := ReadRow(db, id, r.value);
    return Some(vs);
  }

  /** The ids of the table within the bounds, ascending; all of them, or the first `limit`. */
  ghost predicate RangeOf(ids: seq<nat>, c: map<nat, Bytes>, b: Bounds, hasLimit: bool, limit: nat) {
    && (forall i, j :: 0 <= i < j < |ids| ==> ids[i] < ids[j])
    && (forall k :: k in ids ==> k in c && InBounds(b, k))
    && (hasLimit ==> |ids| <= limit)
    && (if hasLimit && |ids| == limit
        then forall k :: k in c && InBounds(b, k) && k !in ids ==> forall i :: 0 <= i < |ids| ==> ids[i] < k
        else forall k :: k in c && InBounds(b, k) ==> k in ids)
  }

  /** SELECT over a range of ids: walk the leaves, then read the rows. */
  method ExecIndexRange(db: Store, b: Bounds, hasLimit: bool, limit: nat) returns (rows: seq<O.Row>)
    requires DbOK(db) && b.lo < KEY_LIMIT && b.hi < KEY_LIMIT
    ensures Lists(rows, TableContents(db), db.columns)
    ensures RangeOf(IdsOf(rows), TableContents(db), b, hasLimit, limit)
  {
    if hasLimit && limit == 0 {
      return [];
    }
    var more := (out: seq<LeafEntry>) => !hasLimit || |out| < limit;
    var found := RangeScan(db, b, more);
    RangeDelivered(found, db.rows, TableContents(db), b, hasLimit, limit, more);
    rows := ReadAll(db, found);
  }

  /** The rows of the first entries have been read. */
  ghost predicate ReadSoFar(found: seq<LeafEntry>, rows: seq<O.Row>, c: map<nat, Bytes>, cols: seq<Column>) {
    |rows| <= |found| && forall k {:trigger rows[k]} :: 0 <= k < |rows| ==>
      IdIn(rows[k]) == found[k].key && IsRow(c, cols, found[k].key, rows[k])
  }

  lemma {:induction false} ReadOneMore(found: seq<LeafEntry>, rows: seq<O.Row>, c: map<nat, Bytes>, cols: seq<Column>, row: O.Row) returns (rows': seq<O.Row>)
    requires ReadSoFar(found, rows, c, cols) && |rows| < |found|
    requires IdIn(row) == found[|rows|].key && IsRow(c, cols, found[|rows|].key, row)
    ensures rows' == rows + [row] && ReadSoFar(found, rows', c, cols)
  {
    rows' := rows + [row];
  }

  lemma {:induction false} AllRead(found: seq<LeafEntry>, rows: seq<O.Row>, c: map<nat, Bytes>, cols: seq<Column>)
    requires ReadSoFar(found, rows, c, cols) && |rows| == |found|
    requires forall i, j :: 0 <= i < j < |found| ==> found[i].key != found[j].key
    ensures Lists(rows, c, cols) && IdsOf(rows) == KeysOf(found)
  {
    forall i | 0 <= i < |found|
      ensures IdsOf(rows)[i] == KeysOf(found)[i]
    {
      assert IdIn(rows[i]) == found[i].key;
    }
  }

  /** The second step: read the rows the walk has found. */
  method ReadAll(db: Store, found: seq<LeafEntry>) returns (rows: seq<O.Row>)
    requires DbOK(db)
    requires forall i {:trigger found[i]} :: 0 <= i < |found| ==> found[i].key in db.rows && db.rows[found[i].key] == found[i].ref
    requires forall i, j :: 0 <= i < j < |found| ==> found[i].key != found[j].key
    ensures Lists(rows, TableContents(db), db.columns) && IdsOf(rows) == KeysOf(found)
  {
    ghost var c := TableContents(db);
    rows := [];
    var i := 0;
    while i < |found|
      invariant 0 <= i <= |found| && |rows| == i && ReadSoFar(found, rows, c, db.columns)
    {
      var ok, vs := ReadRow(db, found[i].key, found[i].ref);
      ghost var rows' := ReadOneMore(found, rows, c, db.columns, vs);
      rows := rows + [vs];
      i := i + 1;
    }
    AllRead(found, rows, c, db.columns);
  }

  function KeysOf(es: seq<LeafEntry>): (ids: seq<nat>)
    ensures |ids| == |es| && forall i :: 0 <= i < |es| ==> ids[i] == es[i].key
  {
    seq(|es|, i requires 0 <= i < |es| => es[i].key)
  }

  lemma {:induction false} RangeDelivered(es: seq<LeafEntry>, rows: map<nat, RowRef>, c: map<nat, Bytes>, b: Bounds, hasLimit: bool, limit: nat, more: Receiver)
    requires Delivered(es, rows, b, more) && c.Keys == rows.Keys && (forall k :: k in rows ==> k < KEY_LIMIT)
    requires forall out :: more(out) <==> !hasLimit || |out| < limit
    requires hasLimit ==> limit > 0
    ensures RangeOf(KeysOf(es), c, b, hasLimit, limit)
    ensures forall i {:trigger es[i]} :: 0 <= i < |es| ==> es[i].key in rows && rows[es[i].key] == es[i].ref
    ensures forall i, j :: 0 <= i < j < |es| ==> es[i].key != es[j].key
  {
    var ids := KeysOf(es);
    assert |es| > 1 ==> more(es[..|es| - 1]);
    var top := if |es| > 0 && !more(es) then es[|es| - 1].key + 1 else KEY_LIMIT;
    assert ListsRows(es, rows, b, top);
    forall k | k in c && InBounds(b, k) && k < top
      ensures k in ids
    {
      assert k in rows && HasKey(es, k);
      var i :| 0 <= i < |es| && es[i].key == k;
      assert ids[i] == k;
    }
    forall k | k in ids
      ensures k in c && InBounds(b, k)
    {
      var i :| 0 <= i < |es| && ids[i] == k;
      assert es[i].key in rows;
    }
  }

  /** The two ways to run a query over a range of ids find the same rows, as long as no bound, or both,
      lie beyond the signed range. */
  lemma {:induction false} AccessPathsAgree(h: Heap, rows: map<nat, RowRef>, cols: seq<Column>, nextId: nat, rowCount: nat, b: Bounds, ids: seq<nat>)
    requires HeapOK(h) && Filed(h, rows, cols, nextId, rowCount) && (cols != [] ==> IsIdColumn(cols[0]))
    requires b.lo < KEY_LIMIT && b.hi < KEY_LIMIT
    requires BeyondSigned(b.hasLo, b.lo) == BeyondSigned(b.hasHi, b.hi)
    requires RangeOf(ids, Contents(h, rows), b, false, 0)
    ensures IdSet(ids) == Matching(Contents(h, rows), cols, IdRange(b))
  {
    forall k | k in rows
      ensures InBounds(b, k) <==> RowMatches(cols, Contents(h, rows)[k], IdRange(b))
    {
      StoredRow(h, rows, cols, nextId, rowCount, k);
      var vs := DecodedRow(cols, Contents(h, rows)[k]);
      RangeMeansBounds(cols, vs, b, k);
    }
  }

  /* ---------- ORDER BY ---------- */

  lemma {:induction false} RowsComparable(rows: seq<O.Row>, c: map<nat, Bytes>, cols: seq<Column>, o: O.Order)
    requires Lists(rows, c, cols) && o.col < |cols| && o.kind == cols[o.col].kind
    ensures O.AllComparable(o, rows)
  {
    forall i | 0 <= i < |rows|
      ensures O.Comparable(o, rows[i])
    {
      assert IsRow(c, cols, IdIn(rows[i]), rows[i]);
      assert S.ValueOK(cols[o.col], rows[i][o.col]);
    }
  }

  /** SELECT with ORDER BY. Without a LIMIT the matching rows are all sorted; with one, a heap of that
      many rows is kept during the scan and sorted at the end, which gives the same keys. */
  method ExecOrderBy(db: Store, p: Predicate, field: string, desc: bool, hasLimit: bool, limit: nat)
    returns (ok: bool, rows: seq<O.Row>, ghost all: seq<O.Row>, ghost o: O.Order)
    requires DbOK(db) && (hasLimit ==> limit > 0)
    ensures ok <==> FindColumnFrom(db.columns, field, 0) >= 0
    ensures ok ==> o == O.Order(FindColumnFrom(db.columns, field, 0), db.columns[FindColumnFrom(db.columns, field, 0)].kind, desc)
    ensures ok ==> Lists(all, TableContents(db), db.columns) && IdSet(IdsOf(all)) == Matching(TableContents(db), db.columns, p)
    ensures ok ==> O.Sorted(o, rows) && multiset(rows) <= multiset(all)
    ensures ok ==> |rows| == if hasLimit && limit < |all| then limit else |all|
    ensures ok ==> T.TiesWithStart(o, rows, all)
  {
    rows, all, o := [], [], O.Order(0, S.KInt, false);
    var col := FindColumn(db.columns, field);
    if col < 0 {
      return false, [], [], o;
    }
    ok := true;
    var order := O.Order(col, db.columns[col].kind, desc);
    o := order;
    var xs := SelectScan(db, p);
    all := xs;
    RowsComparable(xs, TableContents(db), db.columns, order);
    if hasLimit {
      var a, count := T.TopKRows(xs, limit, order);
      rows := a[..count];
    } else {
      rows := SortAll(xs, order);
    }
  }

  method SortAll(xs: seq<O.Row>, o: O.Order) returns (rows: seq<O.Row>)
    requires O.AllComparable(o, xs)
    ensures O.Sorted(o, rows) && multiset(rows) == multiset(xs) && |rows| == |xs| && T.TiesWithStart(o, rows, xs)
  {
    var a := new O.Row[|xs|](i requires 0 <= i < |xs| => xs[i]);
    assert a[..] == xs;
    if |xs| > 1 {
      Q.Quicksort(a, 0, |xs| - 1, o);
      assert a[0..|xs|] == a[..] && xs[0..|xs|] == xs;
    }
    rows := a[..];
    assert |rows| == |xs|;
    T.Kept(o, xs, rows, [], |xs|);
  }
}
