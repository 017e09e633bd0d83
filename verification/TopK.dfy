/** ORDER BY with LIMIT: a heap of at most `limit` rows with the last of them in order at its root,
    and why sorting it gives the same keys as the first rows of a full sort. */
module TopK {
  import opened Schema
  import opened Ordering
  import opened Sorting

  /* ---------- the heap ---------- */

  ghost predicate BelowParent(o: Order, s: seq<Row>, k: int)
    requires 0 < k < |s|
  {
    Le(o, s[k], s[(k - 1) / 2])
  }

  /** The first n rows form a heap, except perhaps between x and its parent. */
  ghost predicate HeapButUp(o: Order, s: seq<Row>, n: nat, x: nat) {
    && x < n <= |s|
    && (forall k :: 0 <= k < n ==> Comparable(o, s[k]))
    && (forall k {:trigger BelowParent(o, s, k)} :: 0 < k < n && k != x ==> BelowParent(o, s, k))
    && (x > 0 ==> forall k :: 0 < k < n && (k - 1) / 2 == x ==> Le(o, s[k], s[(x - 1) / 2]))
  }

  /** The first n rows form a heap, except perhaps between x and its children. */
  ghost predicate HeapButDown(o: Order, s: seq<Row>, n: nat, x: nat) {
    && x < n <= |s|
    && (forall k :: 0 <= k < n ==> Comparable(o, s[k]))
    && (forall k {:trigger BelowParent(o, s, k)} :: 0 < k < n && (k - 1) / 2 != x ==> BelowParent(o, s, k))
    && (x > 0 ==> forall k :: 0 < k < n && (k - 1) / 2 == x ==> Le(o, s[k], s[(x - 1) / 2]))
  }

  ghost predicate IsHeap(o: Order, s: seq<Row>, n: nat) {
    && n <= |s|
    && (forall k :: 0 <= k < n ==> Comparable(o, s[k]))
    && (forall k {:trigger BelowParent(o, s, k)} :: 0 < k < n ==> BelowParent(o, s, k))
  }

  /** The row at the root sorts no earlier than any other. */
  lemma {:induction false} RootIsLast(o: Order, s: seq<Row>, n: nat, k: nat)
    requires IsHeap(o, s, n) && k < n
    ensures Le(o, s[k], s[0])
  {
    if k == 0 {
      LeFacts(o, s[0], s[0]);
    } else {
      RootIsLast(o, s, n, (k - 1) / 2);
      assert BelowParent(o, s, k);
      CompareTransitive(o, s[k], s[(k - 1) / 2], s[0]);
    }
  }

  lemma {:induction false} UpStep(o: Order, s: seq<Row>, t: seq<Row>, n: nat, x: nat)
    requires HeapButUp(o, s, n, x) && x > 0 && Le(o, s[(x - 1) / 2], s[x])
    requires t == s[x := s[(x - 1) / 2]][(x - 1) / 2 := s[x]]
    ensures HeapButUp(o, t, n, (x - 1) / 2)
  {
    var p := (x - 1) / 2;
    forall k | 0 < k < n && k != p
      ensures BelowParent(o, t, k)
    {
      if k != x && (k - 1) / 2 == p {
        assert BelowParent(o, s, k);
        CompareTransitive(o, s[k], s[p], s[x]);
      } else if k != x {
        assert BelowParent(o, s, k);
      }
    }
    if p > 0 {
      assert BelowParent(o, s, p);
      forall k | 0 < k < n && (k - 1) / 2 == p
        ensures Le(o, t[k], t[(p - 1) / 2])
      {
        if k != x {
          assert BelowParent(o, s, k);
          CompareTransitive(o, s[k], s[p], s[(p - 1) / 2]);
        }
      }
    }
  }

  lemma {:induction false} UpDone(o: Order, s: seq<Row>, n: nat, x: nat)
    requires HeapButUp(o, s, n, x) && (x > 0 ==> BelowParent(o, s, x))
    ensures IsHeap(o, s, n)
  {
  }

  method SiftUp(rows: array<Row>, n: nat, start: nat, o: Order)
    requires HeapButUp(o, rows[..], n, start)
    modifies rows
    ensures IsHeap(o, rows[..], n) && Permuted(old(rows[..]), rows[..], 0, n)
  {
    var idx := start;
    ghost var was := rows[..];
    while idx > 0
      invariant HeapButUp(o, rows[..], n, idx) && Permuted(was, rows[..], 0, n)
    {
      var parent: nat := (idx - 1) / 2;
      LeFacts(o, rows[idx], rows[parent]);
      ghost var s := rows[..];
      if Compare(o, rows[idx], rows[parent]) <= 0 {
        UpDone(o, s, n, idx);
        return;
      }
      SwapRows(rows, idx, parent);
      assert rows[..] == s[parent := s[idx]][idx := s[parent]];
      SwapPermutes(s, parent, idx, 0, n);
      PermutedTrans(was, s, rows[..], 0, n);
      UpStep(o, s, rows[..], n, idx);
      idx := parent;
    }
    UpDone(o, rows[..], n, idx);
  }

  /** The one of x and its children that sorts last. */
  method WorstOf(rows: array<Row>, n: nat, x: nat, o: Order) returns (worst: nat)
    requires x < n <= rows.Length && forall k :: 0 <= k < n ==> Comparable(o, rows[k])
    ensures worst < n && (worst == x || (worst - 1) / 2 == x) && worst >= x
    ensures Le(o, rows[x], rows[worst])
    ensures forall k :: 0 < k < n && (k - 1) / 2 == x ==> Le(o, rows[k], rows[worst])
  {
    var left := x * 2 + 1;
    var right := left + 1;
    worst := x;
    LeFacts(o, rows[x], rows[x]);
    if left < n {
      LeFacts(o, rows[left], rows[worst]);
      LeFacts(o, rows[left], rows[left]);
      if Compare(o, rows[left], rows[worst]) > 0 {
        worst := left;
      }
    }
    if right < n {
      LeFacts(o, rows[right], rows[worst]);
      LeFacts(o, rows[right], rows[right]);
      if Compare(o, rows[right], rows[worst]) > 0 {
        CompareTransitive(o, rows[x], rows[worst], rows[right]);
        CompareTransitive(o, rows[left], rows[worst], rows[right]);
        worst := right;
      }
    }
    forall k | 0 < k < n && (k - 1) / 2 == x
      ensures Le(o, rows[k], rows[worst])
    {
      assert k == left || k == right;
    }
  }

  lemma {:induction false} DownStep(o: Order, s: seq<Row>, t: seq<Row>, n: nat, x: nat, w: nat)
    requires HeapButDown(o, s, n, x) && x < w < n && (w - 1) / 2 == x && Le(o, s[x], s[w])
    requires forall k :: 0 < k < n && (k - 1) / 2 == x ==> Le(o, s[k], s[w])
    requires t == s[x := s[w]][w := s[x]]
    ensures HeapButDown(o, t, n, w)
  {
    forall k | 0 < k < n && (k - 1) / 2 != w
      ensures BelowParent(o, t, k)
    {
      if (k - 1) / 2 != x && k != x {
        assert BelowParent(o, s, k);
      }
    }
    forall k | 0 < k < n && (k - 1) / 2 == w
      ensures Le(o, t[k], t[(w - 1) / 2])
    {
      assert BelowParent(o, s, k);
    }
  }

  lemma {:induction false} DownDone(o: Order, s: seq<Row>, n: nat, x: nat)
    requires HeapButDown(o, s, n, x)
    requires forall k :: 0 < k < n && (k - 1) / 2 == x ==> Le(o, s[k], s[x])
    ensures IsHeap(o, s, n)
  {
    forall k | 0 < k < n
      ensures BelowParent(o, s, k)
    {
    }
  }

  method SiftDown(rows: array<Row>, n: nat, start: nat, o: Order)
    requires HeapButDown(o, rows[..], n, start)
    modifies rows
    ensures IsHeap(o, rows[..], n) && Permuted(old(rows[..]), rows[..], 0, n)
  {
    var idx := start;
    ghost var was := rows[..];
    while true
      invariant HeapButDown(o, rows[..], n, idx) && Permuted(was, rows[..], 0, n)
      decreases n - idx
    {
      ghost var s := rows[..];
      assert forall k :: 0 <= k < n ==> rows[k] == s[k];
      var worst := WorstOf(rows, n, idx, o);
      if worst == idx {
        DownDone(o, s, n, idx);
        return;
      }
      SwapRows(rows, idx, worst);
      SwapPermutes(s, idx, worst, 0, n);
      PermutedTrans(was, s, rows[..], 0, n);
      DownStep(o, s, rows[..], n, idx, worst);
      idx := worst;
    }
  }

  /* ---------- what the heap holds after some rows ---------- */

  /** Of the rows seen, `kept` are the ones in the heap and `rest` the ones passed over: nothing kept
      sorts behind anything passed over, and nothing is passed over while there is room. */
  ghost predicate Best(o: Order, seen: seq<Row>, kept: seq<Row>, rest: seq<Row>, limit: nat) {
    && multiset(seen) == multiset(kept) + multiset(rest)
    && |kept| <= limit && (|kept| < limit ==> rest == [])
    && (forall i, j :: 0 <= i < |kept| && 0 <= j < |rest| ==> Le(o, kept[i], rest[j]))
  }

  lemma {:induction false} BestPermuted(o: Order, seen: seq<Row>, kept: seq<Row>, kept': seq<Row>, rest: seq<Row>, limit: nat)
    requires Best(o, seen, kept, rest, limit) && multiset(kept') == multiset(kept)
    ensures Best(o, seen, kept', rest, limit)
  {
    assert |kept'| == |multiset(kept')| == |multiset(kept)| == |kept|;
    forall i | 0 <= i < |kept'|
      ensures exists j :: 0 <= j < |kept| && kept[j] == kept'[i]
    {
      assert kept'[i] in multiset(kept);
    }
  }

  lemma {:induction false} BestRoom(o: Order, seen: seq<Row>, kept: seq<Row>, limit: nat, v: Row)
    requires Best(o, seen, kept, [], limit) && |kept| < limit
    ensures Best(o, seen + [v], kept + [v], [], limit)
  {
  }

  lemma {:induction false} BestReplaced(o: Order, seen: seq<Row>, kept: seq<Row>, rest: seq<Row>, limit: nat, v: Row)
    requires Best(o, seen, kept, rest, limit) && |kept| == limit > 0
    requires forall i :: 0 <= i < |kept| ==> Le(o, kept[i], kept[0])
    requires Le(o, v, kept[0])
    ensures Best(o, seen + [v], kept[0 := v], rest + [kept[0]], limit)
  {
    var kept', rest' := kept[0 := v], rest + [kept[0]];
    assert kept == [kept[0]] + kept[1..] && kept' == [v] + kept[1..];
    forall i, j | 0 <= i < |kept'| && 0 <= j < |rest'|
      ensures Le(o, kept'[i], rest'[j])
    {
      if i == 0 && j < |rest| {
        CompareTransitive(o, v, kept[0], rest[j]);
      }
    }
  }

  lemma {:induction false} BestPassed(o: Order, seen: seq<Row>, kept: seq<Row>, rest: seq<Row>, limit: nat, v: Row)
    requires Best(o, seen, kept, rest, limit) && |kept| == limit > 0
    requires forall i :: 0 <= i < |kept| ==> Le(o, kept[i], kept[0])
    requires Le(o, kept[0], v)
    ensures Best(o, seen + [v], kept, rest + [v], limit)
  {
    forall i, j | 0 <= i < |kept| && 0 <= j < |rest + [v]|
      ensures Le(o, kept[i], (rest + [v])[j])
    {
      if j == |rest| {
        CompareTransitive(o, kept[i], kept[0], v);
      }
    }
  }

  lemma {:induction false} PermutedFront(s: seq<Row>, t: seq<Row>, n: nat)
    requires Permuted(s, t, 0, n)
    ensures multiset(t[..n]) == multiset(s[..n])
  {
    assert s[0..n] == s[..n] && t[0..n] == t[..n];
  }

  /** One more matching row reaches the heap. */
  method TopKPush(rows: array<Row>, count: nat, v: Row, o: Order, ghost seen: seq<Row>, ghost rest: seq<Row>)
    returns (count': nat, ghost rest': seq<Row>)
    requires rows.Length > 0 && Comparable(o, v)
    requires IsHeap(o, rows[..], count) && Best(o, seen, rows[..count], rest, rows.Length)
    modifies rows
    ensures IsHeap(o, rows[..], count') && Best(o, seen + [v], rows[..count'], rest', rows.Length)
  {
    var limit := rows.Length;
    count' := count;
    if count < limit {
      rest' := [];
      BestRoom(o, seen, rows[..count], limit, v);
      rows[count] := v;
      count' := count + 1;
      ghost var s := rows[..];
      assert s[..count'] == old(rows[..count]) + [v];
      StartUp(o, old(rows[..]), s, count, v);
      SiftUp(rows, count', count, o);
      PermutedFront(s, rows[..], count');
      BestPermuted(o, seen + [v], s[..count'], rows[..count'], [], limit);
      return;
    }
    RootLast(o, rows[..], count);
    LeFacts(o, v, rows[0]);
    if Compare(o, v, rows[0]) < 0 {
      BestReplaced(o, seen, rows[..count], rest, limit, v);
      rest' := rest + [rows[0]];
      rows[0] := v;
      ghost var s := rows[..];
      assert s[..count] == old(rows[..count])[0 := v];
      StartDown(o, old(rows[..]), s, count, v);
      SiftDown(rows, count, 0, o);
      PermutedFront(s, rows[..], count);
      BestPermuted(o, seen + [v], s[..count], rows[..count], rest', limit);
    } else {
      BestPassed(o, seen, rows[..count], rest, limit, v);
      rest' := rest + [v];
    }
  }

  lemma {:induction false} StartUp(o: Order, s: seq<Row>, t: seq<Row>, n: nat, v: Row)
    requires IsHeap(o, s, n) && n < |s| && Comparable(o, v) && t == s[n := v]
    ensures HeapButUp(o, t, n + 1, n)
  {
    forall k | 0 < k < n
      ensures BelowParent(o, t, k)
    {
      assert BelowParent(o, s, k);
    }
  }

  lemma {:induction false} StartDown(o: Order, s: seq<Row>, t: seq<Row>, n: nat, v: Row)
    requires IsHeap(o, s, n) && 0 < n && Comparable(o, v) && t == s[0 := v]
    ensures HeapButDown(o, t, n, 0)
  {
    forall k | 0 < k < n && (k - 1) / 2 != 0
      ensures BelowParent(o, t, k)
    {
      assert BelowParent(o, s, k);
    }
  }

  lemma {:induction false} RootLast(o: Order, s: seq<Row>, n: nat)
    requires IsHeap(o, s, n)
    ensures forall i :: 0 <= i < n ==> Le(o, s[i], s[0])
  {
    forall i | 0 <= i < n
      ensures Le(o, s[i], s[0])
    {
      RootIsLast(o, s, n, i);
    }
  }

  /* ---------- the same keys as a full sort ---------- */

  /** How many of the first n rows have a property. */
  function Count(f: Row -> bool, s: seq<Row>, n: nat): nat
    requires n <= |s|
  {
    if n == 0 then 0 else Count(f, s, n - 1) + if f(s[n - 1]) then 1 else 0
  }

  lemma {:induction false} CountSplit(f: Row -> bool, s: seq<Row>, t: seq<Row>, n: nat)
    requires n <= |t|
    ensures Count(f, s + t, |s| + n) == Count(f, s, |s|) + Count(f, t, n)
  {
    if n > 0 {
      CountSplit(f, s, t, n - 1);
    } else {
      CountFront(f, s + t, s, |s|);
    }
  }

  lemma {:induction false} CountFront(f: Row -> bool, s: seq<Row>, t: seq<Row>, n: nat)
    requires n <= |s| && n <= |t| && forall k :: 0 <= k < n ==> s[k] == t[k]
    ensures Count(f, s, n) == Count(f, t, n)
  {
    if n > 0 {
      CountFront(f, s, t, n - 1);
    }
  }

  lemma {:induction false} CountMiddle(f: Row -> bool, a: seq<Row>, x: Row, b: seq<Row>)
    ensures Count(f, a + [x] + b, |a| + 1 + |b|) == Count(f, a + b, |a| + |b|) + if f(x) then 1 else 0
  {
    CountSplit(f, a, b, |b|);
    CountSplit(f, a + [x], b, |b|);
    CountFront(f, a + [x], a, |a|);
  }

  /** The last row of s is somewhere in t, and without it the two still have the same rows. */
  lemma {:induction false} TakeOut(s: seq<Row>, t: seq<Row>) returns (front: seq<Row>, x: Row, a: seq<Row>, b: seq<Row>)
    requires multiset(s) == multiset(t) && s != []
    ensures s == front + [x] && t == a + [x] + b && multiset(front) == multiset(a + b)
  {
    var n := |s| - 1;
    front, x := s[..n], s[n];
    assert s == front + [x];
    assert x in multiset(t);
    var j :| 0 <= j < |t| && t[j] == x;
    a, b := t[..j], t[j + 1..];
    assert t == a + [x] + b;
    assert multiset(front) == multiset(s) - multiset{x};
    assert multiset(a + b) == multiset(t) - multiset{x};
  }

  lemma {:induction false} CountPermuted(f: Row -> bool, s: seq<Row>, t: seq<Row>)
    requires multiset(s) == multiset(t)
    ensures Count(f, s, |s|) == Count(f, t, |t|)
    decreases |s|
  {
    if s == [] {
      assert multiset(t) == multiset{};
      assert t == [];
    } else {
      var front, x, a, b := TakeOut(s, t);
      CountPermuted(f, front, a + b);
      CountFront(f, s, front, |front|);
      CountMiddle(f, a, x, b);
    }
  }

  lemma {:induction false} CountAtLeast(f: Row -> bool, s: seq<Row>, n: nat, i: nat)
    requires i < n <= |s| && forall k :: 0 <= k <= i ==> f(s[k])
    ensures Count(f, s, n) >= i + 1
  {
    if n > i + 1 {
      CountAtLeast(f, s, n - 1, i);
    } else if i > 0 {
      CountAtLeast(f, s, n - 1, i - 1);
    }
  }

  lemma {:induction false} CountAtMost(f: Row -> bool, s: seq<Row>, n: nat, i: nat)
    requires n <= |s| && forall k :: i <= k < n ==> !f(s[k])
    ensures Count(f, s, n) <= i
    ensures Count(f, s, n) <= n
  {
    if n > 0 {
      CountAtMost(f, s, n - 1, i);
    }
  }

  lemma {:induction false} CountedSomewhere(f: Row -> bool, s: seq<Row>, n: nat) returns (k: nat)
    requires n <= |s| && Count(f, s, n) > 0
    ensures k < n && f(s[k])
  {
    if f(s[n - 1]) {
      k := n - 1;
    } else {
      k := CountedSomewhere(f, s, n - 1);
    }
  }

  /** How many rows sort no later than p. */
  ghost function CountLe(o: Order, s: seq<Row>, p: Row): nat {
    Count(r => Le(o, r, p), s, |s|)
  }

  lemma {:induction false} SortedCounts(o: Order, s: seq<Row>, i: nat, p: Row)
    requires Sorted(o, s) && AllComparable(o, s) && i < |s| && Comparable(o, p)
    ensures CountLe(o, s, s[i]) >= i + 1
    ensures !Le(o, s[i], p) ==> CountLe(o, s, p) <= i
  {
    LeFacts(o, s[i], s[i]);
    var q := s[i];
    CountAtLeast(r => Le(o, r, q), s, |s|, i);
    if !Le(o, s[i], p) {
      forall k | i <= k < |s|
        ensures !Le(o, s[k], p)
      {
        if Le(o, s[k], p) && i < k {
          CompareTransitive(o, s[i], s[k], p);
        }
      }
      CountAtMost(r => Le(o, r, p), s, |s|, i);
    }
  }

  /** Put in order, the rows of the heap have the keys that come first when all rows are put in order. */
  lemma {:induction false} SameKeys(o: Order, seen: seq<Row>, kept: seq<Row>, rest: seq<Row>, limit: nat, all: seq<Row>, i: nat)
    requires Best(o, seen, kept, rest, limit) && AllComparable(o, seen)
    requires Sorted(o, kept) && Sorted(o, all) && multiset(all) == multiset(seen)
    requires i < |kept|
    ensures |kept| <= |all| && i < |all|
    ensures Comparable(o, kept[i]) && Comparable(o, all[i]) && Compare(o, kept[i], all[i]) == 0
  {
    assert |all| == |multiset(all)| == |kept| + |rest|;
    Drawn(o, seen, all);
    Drawn(o, seen, kept + rest);
    forall k | 0 <= k < |kept|
      ensures Comparable(o, kept[k])
    {
      assert kept[k] == (kept + rest)[k];
    }
    forall p
      ensures CountLe(o, all, p) == CountLe(o, kept, p) + CountLe(o, rest, p)
    {
      CountPermuted(r => Le(o, r, p), all, kept + rest);
      CountSplit(r => Le(o, r, p), kept, rest, |rest|);
    }
    SortedCounts(o, kept, i, all[i]);
    SortedCounts(o, all, i, kept[i]);
    assert Le(o, all[i], kept[i]);
    if !Le(o, kept[i], all[i]) {
      var q := all[i];
      var k := CountedSomewhere(r => Le(o, r, q), rest, |rest|);
      CompareTransitive(o, kept[i], rest[k], all[i]);
    }
    LeFacts(o, kept[i], all[i]);
  }

  lemma {:induction false} Drawn(o: Order, seen: seq<Row>, t: seq<Row>)
    requires AllComparable(o, seen) && multiset(t) == multiset(seen)
    ensures AllComparable(o, t)
  {
    forall k | 0 <= k < |t|
      ensures Comparable(o, t[k])
    {
      assert t[k] in multiset(seen);
    }
  }

  /** Row by row, `kept` ties with the start of any full sort of xs. */
  ghost predicate TiesWithStart(o: Order, kept: seq<Row>, xs: seq<Row>) {
    forall all: seq<Row>, i :: Sorted(o, all) && multiset(all) == multiset(xs) && 0 <= i < |kept| ==>
      i < |all| && Comparable(o, kept[i]) && Comparable(o, all[i]) && Compare(o, kept[i], all[i]) == 0
  }

  /** ORDER BY with a LIMIT of at least one, over the matching rows in the order they are scanned: the
      result is in order and ties, row by row, with the start of any full sort of those rows. */
  method TopKRows(xs: seq<Row>, limit: nat, o: Order) returns (rows: array<Row>, count: nat)
    requires limit >= 1 && AllComparable(o, xs)
    ensures fresh(rows) && count == (if |xs| < limit then |xs| else limit) <= rows.Length
    ensures multiset(rows[..count]) <= multiset(xs) && Sorted(o, rows[..count])
    ensures TiesWithStart(o, rows[..count], xs)
  {
    rows := new Row[limit](_ => []);
    ghost var rest;
    count, rest := Collect(rows, xs, o);
    SortKept(rows, count, o, xs, rest);
    Kept(o, xs, rows[..count], rest, limit);
  }

  /** The rows reach the heap one by one. */
  method Collect(rows: array<Row>, xs: seq<Row>, o: Order) returns (count: nat, ghost rest: seq<Row>)
    requires rows.Length > 0 && AllComparable(o, xs)
    modifies rows
    ensures IsHeap(o, rows[..], count) && Best(o, xs, rows[..count], rest, rows.Length)
  {
    count := 0;
    rest := [];
    var n := 0;
    while n < |xs|
      invariant 0 <= n <= |xs|
      invariant IsHeap(o, rows[..], count) && Best(o, xs[..n], rows[..count], rest, rows.Length)
    {
      count, rest := TopKPush(rows, count, xs[n], o, xs[..n], rest);
      assert xs[..n + 1] == xs[..n] + [xs[n]];
      n := n + 1;
    }
    assert xs[..n] == xs;
  }

  /** The final sort, over the rows that were collected. */
  method SortKept(rows: array<Row>, count: nat, o: Order, ghost seen: seq<Row>, ghost rest: seq<Row>)
    requires IsHeap(o, rows[..], count) && Best(o, seen, rows[..count], rest, rows.Length)
    modifies rows
    ensures Sorted(o, rows[..count]) && Best(o, seen, rows[..count], rest, rows.Length)
  {
    ghost var s := rows[..];
    if count > 1 {
      Quicksort(rows, 0, count - 1, o);
      PermutedFront(s, rows[..], count);
      BestPermuted(o, seen, s[..count], rows[..count], rest, rows.Length);
    }
  }

  lemma {:induction false} Kept(o: Order, xs: seq<Row>, kept: seq<Row>, rest: seq<Row>, limit: nat)
    requires Best(o, xs, kept, rest, limit) && Sorted(o, kept) && AllComparable(o, xs)
    ensures |kept| == (if |xs| < limit then |xs| else limit) && multiset(kept) <= multiset(xs)
    ensures TiesWithStart(o, kept, xs)
  {
    assert |xs| == |multiset(xs)| == |kept| + |rest|;
    forall all, i | Sorted(o, all) && multiset(all) == multiset(xs) && 0 <= i < |kept|
      ensures i < |all| && Comparable(o, kept[i]) && Comparable(o, all[i]) && Compare(o, kept[i], all[i]) == 0
    {
      SameKeys(o, xs, kept, rest, limit, all, i);
    }
  }
}
