/** The in-place quicksort of ORDER BY. */
module Sorting {
  import opened Schema
  import opened Ordering

  method SwapRows(rows: array<Row>, a: int, b: int)
    requires 0 <= a < rows.Length && 0 <= b < rows.Length
    modifies rows
    ensures rows[..] == old(rows[..])[a := old(rows[b])][b := old(rows[a])]
  {
    if a == b {
      return;
    }
    var tmp := rows[a];
    rows[a] := rows[b];
    rows[b] := tmp;
  }

  /** What holds between two rounds of the partition: rows before i sort no later than the pivot and
      rows behind j no earlier, and while i <= j there is, for either inner loop, a row that stops it. */
  ghost predicate Parted(o: Order, s: seq<Row>, left: int, right: int, i: int, j: int, pivot: Row) {
    && 0 <= left <= i <= right + 1 <= |s| && left - 1 <= j <= right
    && ComparableIn(o, s, left, right + 1) && Comparable(o, pivot)
    && UpTo(o, s, left, i, pivot) && From(o, s, j + 1, right + 1, pivot)
    && (i <= j ==> (exists k :: i <= k <= right && Le(o, pivot, s[k])) && (exists k :: left <= k <= j && Le(o, s[k], pivot)))
  }

  /** Advance i over rows that sort before the pivot. It stops inside the range without a bound check. */
  method AdvanceLow(rows: array<Row>, ghost left: int, ghost right: int, i0: int, ghost j: int, pivot: Row, o: Order) returns (i: int)
    requires i0 <= j && Parted(o, rows[..], left, right, i0, j, pivot)
    ensures i0 <= i <= right && !(Compare(o, rows[i], pivot) < 0)
    ensures UpTo(o, rows[..], left, i, pivot) && Le(o, pivot, rows[i])
    ensures forall k :: i0 <= k <= right && Le(o, pivot, rows[k]) ==> i <= k
  {
    i := i0;
    ghost var stop :| i <= stop <= right && Le(o, pivot, rows[..][stop]);
    while Compare(o, rows[i], pivot) < 0
      invariant i0 <= i <= stop && UpTo(o, rows[..], left, i, pivot)
      invariant forall k :: i0 <= k <= right && Le(o, pivot, rows[k]) ==> i <= k
      decreases stop - i
    {
      LeFacts(o, rows[i], pivot);
      assert rows[..][i] == rows[i];
      i := i + 1;
    }
    LeFacts(o, rows[i], pivot);
  }

  /** Move j down over rows that sort behind the pivot. */
  method RetreatHigh(rows: array<Row>, ghost left: int, ghost right: int, ghost i: int, j0: int, pivot: Row, o: Order) returns (j: int)
    requires i <= j0 && Parted(o, rows[..], left, right, i, j0, pivot)
    ensures left <= j <= j0 && !(Compare(o, rows[j], pivot) > 0)
    ensures From(o, rows[..], j + 1, right + 1, pivot) && Le(o, rows[j], pivot)
    ensures forall k :: left <= k <= j0 && Le(o, rows[k], pivot) ==> k <= j
  {
    j := j0;
    ghost var stop :| left <= stop <= j && Le(o, rows[..][stop], pivot);
    while Compare(o, rows[j], pivot) > 0
      invariant stop <= j <= j0 && From(o, rows[..], j + 1, right + 1, pivot)
      invariant forall k :: left <= k <= j0 && Le(o, rows[k], pivot) ==> k <= j
      decreases j - stop
    {
      LeFacts(o, rows[j], pivot);
      assert rows[..][j] == rows[j];
      j := j - 1;
    }
    LeFacts(o, rows[j], pivot);
  }

  lemma {:induction false} Exchanged(o: Order, s: seq<Row>, t: seq<Row>, left: int, right: int, i: int, j: int, pivot: Row)
    requires 0 <= left <= i <= j <= right < |s|
    requires ComparableIn(o, s, left, right + 1) && Comparable(o, pivot)
    requires UpTo(o, s, left, i, pivot) && From(o, s, j + 1, right + 1, pivot)
    requires Le(o, pivot, s[i]) && Le(o, s[j], pivot)
    requires t == s[i := s[j]][j := s[i]]
    ensures Parted(o, t, left, right, i + 1, j - 1, pivot) && Permuted(s, t, left, right + 1)
  {
    SwapPermutes(s, i, j, left, right + 1);
    assert t[i] == s[j] && t[j] == s[i];
  }

  lemma {:induction false} Crossed(o: Order, s: seq<Row>, left: int, right: int, i: int, j: int, pivot: Row)
    requires 0 <= left <= i <= right < |s| && left <= j <= right && j < i
    requires ComparableIn(o, s, left, right + 1) && Comparable(o, pivot)
    requires UpTo(o, s, left, i, pivot) && From(o, s, j + 1, right + 1, pivot)
    ensures Parted(o, s, left, right, i, j, pivot)
  {
  }

  ghost predicate PivotBetween(s: seq<Row>, i: int, j: int, pivot: Row)
    requires 0 <= i && j < |s|
  {
    exists k :: i <= k <= j && s[k] == pivot
  }

  /** One round: both loops, and the exchange unless the indices have crossed. While the pivot lies
      between them they cannot cross. */
  method Round(rows: array<Row>, ghost left: int, ghost right: int, i0: int, j0: int, pivot: Row, o: Order) returns (i: int, j: int)
    requires i0 <= j0 && Parted(o, rows[..], left, right, i0, j0, pivot)
    modifies rows
    ensures Parted(o, rows[..], left, right, i, j, pivot) && Permuted(old(rows[..]), rows[..], left, right + 1)
    ensures i0 <= i && j <= j0 && j - i < j0 - i0
    ensures old(PivotBetween(rows[..], i0, j0, pivot)) ==> i0 < i && j < j0
  {
    ghost var s := rows[..];
    i := AdvanceLow(rows, left, right, i0, j0, pivot, o);
    j := RetreatHigh(rows, left, right, i0, j0, pivot, o);
    LeFacts(o, pivot, pivot);
    assert PivotBetween(s, i0, j0, pivot) ==> i <= j;
    if i <= j {
      SwapRows(rows, i, j);
      Exchanged(o, s, rows[..], left, right, i, j, pivot);
      i := i + 1;
      j := j - 1;
    } else {
      Crossed(o, s, left, right, i, j, pivot);
    }
  }

  ghost predicate TwoParts(o: Order, s: seq<Row>, left: int, right: int, i: int, j: int, pivot: Row) {
    && 0 <= left <= right < |s| && left - 1 <= j < i <= right + 1
    && ComparableIn(o, s, left, right + 1) && UpTo(o, s, left, i, pivot) && From(o, s, j + 1, right + 1, pivot)
  }

  /** At the start the pivot itself stops both loops. */
  lemma {:induction false} MiddleStops(o: Order, s: seq<Row>, left: int, right: int)
    requires 0 <= left <= right < |s| && ComparableIn(o, s, left, right + 1)
    ensures Parted(o, s, left, right, left, right, s[(left + right) / 2])
    ensures PivotBetween(s, left, right, s[(left + right) / 2])
    ensures Permuted(s, s, left, right + 1)
  {
    LeFacts(o, s[(left + right) / 2], s[(left + right) / 2]);
  }

  /** One pass: afterwards the rows up to j sort no later than the pivot, the rows from i on no
      earlier, and both stretches are shorter than the range. */
  method Partition(rows: array<Row>, left: int, right: int, o: Order) returns (i: int, j: int, ghost pivot: Row)
    requires 0 <= left <= right < rows.Length && ComparableIn(o, rows[..], left, right + 1)
    modifies rows
    ensures j < right && left < i
    ensures TwoParts(o, rows[..], left, right, i, j, pivot)
    ensures Permuted(old(rows[..]), rows[..], left, right + 1)
  {
    i := left;
    j := right;
    var p := rows[(left + right) / 2];
    pivot := p;
    ghost var was := rows[..];
    MiddleStops(o, was, left, right);
    while i <= j
      invariant Parted(o, rows[..], left, right, i, j, p) && Permuted(was, rows[..], left, right + 1)
      invariant (left < i && j < right) || (i == left && j == right && PivotBetween(rows[..], i, j, p))
      decreases j - i + 1
    {
      ghost var s := rows[..];
      i, j := Round(rows, left, right, i, j, p, o);
      PermutedTrans(was, s, rows[..], left, right + 1);
    }
  }

  lemma {:induction false} LePermuted(o: Order, s: seq<Row>, t: seq<Row>, lo: int, hi: int, p: Row)
    requires Permuted(s, t, lo, hi)
    ensures UpTo(o, s, lo, hi, p) ==> UpTo(o, t, lo, hi, p)
    ensures From(o, s, lo, hi, p) ==> From(o, t, lo, hi, p)
    ensures ComparableIn(o, s, lo, hi) ==> ComparableIn(o, t, lo, hi)
  {
    forall k | lo <= k < hi
      ensures exists j :: lo <= j < hi && s[j] == t[k]
    {
      PermutedStays(s, t, lo, hi, k);
    }
  }

  /** The left stretch sorted, the right one sorted, and between them only rows that tie with the pivot. */
  lemma {:induction false} Joined(o: Order, s: seq<Row>, left: int, right: int, i: int, j: int, pivot: Row)
    requires 0 <= left <= right < |s| && left - 1 <= j < i <= right + 1
    requires ComparableIn(o, s, left, right + 1)
    requires SortedIn(o, s, left, j + 1) && SortedIn(o, s, i, right + 1)
    requires UpTo(o, s, left, i, pivot) && From(o, s, j + 1, right + 1, pivot)
    ensures SortedIn(o, s, left, right + 1)
  {
    forall a, b | left <= a < b < right + 1
      ensures Le(o, s[a], s[b])
    {
      if a < i && b > j {
        CompareTransitive(o, s[a], pivot, s[b]);
      }
    }
  }

  /** Sorting the left stretch, when it has more than one row, keeps the two parts apart. */
  lemma {:induction false} LeftSorted(o: Order, s: seq<Row>, t: seq<Row>, left: int, right: int, i: int, j: int, pivot: Row)
    requires TwoParts(o, s, left, right, i, j, pivot)
    requires if left < j then Permuted(s, t, left, j + 1) && SortedIn(o, t, left, j + 1) else t == s
    ensures TwoParts(o, t, left, right, i, j, pivot) && Permuted(s, t, left, right + 1)
    ensures SortedIn(o, t, left, j + 1)
  {
    if left < j {
      LePermuted(o, s, t, left, j + 1, pivot);
      PermutedWider(s, t, left, j + 1, left, right + 1);
    }
  }

  lemma {:induction false} RightSorted(o: Order, s: seq<Row>, t: seq<Row>, left: int, right: int, i: int, j: int, pivot: Row)
    requires TwoParts(o, s, left, right, i, j, pivot) && SortedIn(o, s, left, j + 1)
    requires if i < right then Permuted(s, t, i, right + 1) && SortedIn(o, t, i, right + 1) else t == s
    ensures ComparableIn(o, t, left, right + 1) && SortedIn(o, t, left, right + 1) && Permuted(s, t, left, right + 1)
  {
    if i < right {
      LePermuted(o, s, t, i, right + 1, pivot);
      PermutedWider(s, t, i, right + 1, left, right + 1);
    }
    Joined(o, t, left, right, i, j, pivot);
  }

  /** Sorts rows[left..right], both ends included, and touches nothing else: whole rows change
      places and none is lost. */
  method Quicksort(rows: array<Row>, left: int, right: int, o: Order)
    requires 0 <= left <= right < rows.Length && ComparableIn(o, rows[..], left, right + 1)
    modifies rows
    ensures SortedIn(o, rows[..], left, right + 1)
    ensures Permuted(old(rows[..]), rows[..], left, right + 1)
    ensures ComparableIn(o, rows[..], left, right + 1)
    decreases right - left
  {
    ghost var was := rows[..];
    var i, j, pivot := Partition(rows, left, right, o);
    ghost var s := rows[..];
    if left < j {
      Quicksort(rows, left, j, o);
    }
    ghost var t := rows[..];
    if i < right {
      LeftSorted(o, s, t, left, right, i, j, pivot);
      Quicksort(rows, i, right, o);
    }
    BothSorted(o, was, s, t, rows[..], left, right, i, j, pivot);
  }

  lemma {:induction false} BothSorted(o: Order, was: seq<Row>, s: seq<Row>, t: seq<Row>, u: seq<Row>, left: int, right: int, i: int, j: int, pivot: Row)
    requires Permuted(was, s, left, right + 1) && TwoParts(o, s, left, right, i, j, pivot)
    requires if left < j then Permuted(s, t, left, j + 1) && SortedIn(o, t, left, j + 1) else t == s
    requires if i < right then Permuted(t, u, i, right + 1) && SortedIn(o, u, i, right + 1) else u == t
    ensures ComparableIn(o, u, left, right + 1) && SortedIn(o, u, left, right + 1) && Permuted(was, u, left, right + 1)
  {
    LeftSorted(o, s, t, left, right, i, j, pivot);
    PermutedTrans(was, s, t, left, right + 1);
    RightHalf(o, was, t, u, left, right, i, j, pivot);
  }

  lemma {:induction false} RightHalf(o: Order, was: seq<Row>, t: seq<Row>, u: seq<Row>, left: int, right: int, i: int, j: int, pivot: Row)
    requires Permuted(was, t, left, right + 1) && TwoParts(o, t, left, right, i, j, pivot) && SortedIn(o, t, left, j + 1)
    requires if i < right then Permuted(t, u, i, right + 1) && SortedIn(o, u, i, right + 1) else u == t
    ensures ComparableIn(o, u, left, right + 1) && SortedIn(o, u, left, right + 1) && Permuted(was, u, left, right + 1)
  {
    RightSorted(o, t, u, left, right, i, j, pivot);
    PermutedTrans(was, t, u, left, right + 1);
  }
}
