/** How two rows compare in an ORDER BY, and what it means for a stretch of rows to be in order. */
module Ordering {
  import opened Pages
  import opened Schema

  type Row = seq<Value>

  /** The column to order by, what it holds, and the direction. */
  datatype Order = Order(col: nat, kind: Kind, desc: bool)

  /** The byte at the front, or the terminating zero. */
  function FirstByte(s: Bytes): Byte {
    if s == [] then 0 else s[0]
  }

  /** Byte by byte until the first difference or the end of both. */
  function StrCmp(a: Bytes, b: Bytes): int {
    if FirstByte(a) != FirstByte(b) then FirstByte(a) - FirstByte(b)
    else if a == [] || b == [] then 0
    else StrCmp(a[1..], b[1..])
  }

  lemma {:induction false} StrCmpOrders(a: Bytes, b: Bytes)
    requires NoZero(a) && NoZero(b)
    ensures StrCmp(a, b) == -StrCmp(b, a)
    ensures StrCmp(a, b) == 0 <==> a == b
  {
    if a != [] && b != [] && a[0] == b[0] {
      StrCmpOrders(a[1..], b[1..]);
      assert a == [a[0]] + a[1..] && b == [b[0]] + b[1..];
    }
  }

  lemma {:induction false} StrCmpTransitive(a: Bytes, b: Bytes, c: Bytes)
    requires NoZero(a) && NoZero(b) && NoZero(c) && StrCmp(a, b) <= 0 && StrCmp(b, c) <= 0
    ensures StrCmp(a, c) <= 0
  {
    if a != [] && b != [] && c != [] && a[0] == b[0] == c[0] {
      StrCmpTransitive(a[1..], b[1..], c[1..]);
    }
  }

  /** A comparison of two integers, as the difference of two truth values. */
  function CmpInt(a: int, b: int): int {
    (if a > b then 1 else 0) - (if a < b then 1 else 0)
  }

  predicate HoldsKind(kind: Kind, v: Value) {
    match kind
    case KInt => v.IntV?
    case KBigint => v.BigV?
    case KVarchar => v.StrV? && NoZero(v.s)
  }

  /** Rows of one table all hold the same kind of value in a column. */
  predicate Comparable(o: Order, r: Row) {
    o.col < |r| && HoldsKind(o.kind, r[o.col])
  }

  function Compare(o: Order, a: Row, b: Row): int
    requires Comparable(o, a) && Comparable(o, b)
  {
    var cmp := match o.kind
      case KInt => CmpInt(a[o.col].i, b[o.col].i)
      case KBigint => CmpInt(a[o.col].b, b[o.col].b)
      case KVarchar => StrCmp(a[o.col].s, b[o.col].s);
    if o.desc then -cmp else cmp
  }

  predicate Le(o: Order, a: Row, b: Row) {
    Comparable(o, a) && Comparable(o, b) && Compare(o, a, b) <= 0
  }

  /** The comparison is a total preorder in either direction, and rows tie just when they agree on
      the column. */
  lemma {:induction false} CompareOrders(o: Order, a: Row, b: Row)
    requires Comparable(o, a) && Comparable(o, b)
    ensures Compare(o, a, b) == -Compare(o, b, a)
    ensures Compare(o, a, b) == 0 <==> a[o.col] == b[o.col]
    ensures Le(o, a, b) || Le(o, b, a)
  {
    if o.kind == KVarchar {
      StrCmpOrders(a[o.col].s, b[o.col].s);
    }
  }

  lemma {:induction false} CompareTransitive(o: Order, a: Row, b: Row, c: Row)
    requires Le(o, a, b) && Le(o, b, c)
    ensures Le(o, a, c)
  {
    if o.kind == KVarchar {
      if o.desc {
        StrCmpOrders(a[o.col].s, b[o.col].s);
        StrCmpOrders(b[o.col].s, c[o.col].s);
        StrCmpOrders(a[o.col].s, c[o.col].s);
        StrCmpTransitive(c[o.col].s, b[o.col].s, a[o.col].s);
      } else {
        StrCmpTransitive(a[o.col].s, b[o.col].s, c[o.col].s);
      }
    }
  }

  /** What the sort relies on, without saying how rows compare. */
  lemma {:induction false} LeFacts(o: Order, a: Row, b: Row)
    requires Comparable(o, a) && Comparable(o, b)
    ensures Le(o, a, b) || Le(o, b, a)
    ensures Compare(o, a, b) < 0 <==> !Le(o, b, a)
    ensures Compare(o, a, b) > 0 <==> !Le(o, a, b)
  {
    CompareOrders(o, a, b);
  }

  /** The order of strings by their bytes: a goes before b if it is what b starts with, or has the
      smaller byte where they first differ. */
  ghost predicate Before(a: Bytes, b: Bytes) {
    exists k :: 0 <= k <= |a| && k < |b| && a[..k] == b[..k] && (k == |a| || a[k] < b[k])
  }

  lemma {:induction false} BeforeFront(a: Bytes, b: Bytes)
    requires a != [] && b != [] && a[0] == b[0]
    ensures Before(a, b) <==> Before(a[1..], b[1..])
  {
    if Before(a, b) {
      var k :| 0 <= k <= |a| && k < |b| && a[..k] == b[..k] && (k == |a| || a[k] < b[k]);
      assert k > 0;
      assert a[1..][..k - 1] == a[..k][1..] && b[1..][..k - 1] == b[..k][1..];
    }
    if Before(a[1..], b[1..]) {
      var k :| 0 <= k <= |a[1..]| && k < |b[1..]| && a[1..][..k] == b[1..][..k] && (k == |a[1..]| || a[1..][k] < b[1..][k]);
      assert a[..k + 1] == [a[0]] + a[1..][..k] && b[..k + 1] == [b[0]] + b[1..][..k];
    }
  }

  /** The sign of a string comparison. */
  lemma {:induction false} StrCmpMeans(a: Bytes, b: Bytes)
    requires NoZero(a) && NoZero(b)
    ensures StrCmp(a, b) < 0 <==> Before(a, b)
    ensures StrCmp(a, b) > 0 <==> Before(b, a)
    ensures StrCmp(a, b) == 0 <==> a == b
  {
    StrCmpOrders(a, b);
    if a != [] && b != [] && a[0] == b[0] {
      StrCmpMeans(a[1..], b[1..]);
      BeforeFront(a, b);
      BeforeFront(b, a);
    } else {
      assert b != [] && (a == [] || a[0] < b[0]) ==> Before(a, b) by {
        assert a[..0] == b[..0];
      }
      assert a != [] && (b == [] || b[0] < a[0]) ==> Before(b, a) by {
        assert a[..0] == b[..0];
      }
    }
  }

  /** What it is for one row to sort no later than another: by number or by bytes, and the other way
      round when descending. */
  lemma {:induction false} LeMeans(o: Order, a: Row, b: Row)
    requires Comparable(o, a) && Comparable(o, b)
    ensures o.kind == KInt ==> (Le(o, a, b) <==> if o.desc then a[o.col].i >= b[o.col].i else a[o.col].i <= b[o.col].i)
    ensures o.kind == KBigint ==> (Le(o, a, b) <==> if o.desc then a[o.col].b >= b[o.col].b else a[o.col].b <= b[o.col].b)
    ensures o.kind == KVarchar ==>
              (Le(o, a, b) <==> a[o.col].s == b[o.col].s
                                || if o.desc then Before(b[o.col].s, a[o.col].s) else Before(a[o.col].s, b[o.col].s))
  {
    if o.kind == KVarchar {
      StrCmpMeans(a[o.col].s, b[o.col].s);
    }
  }

  /* ---------- stretches of rows ---------- */

  ghost predicate ComparableIn(o: Order, s: seq<Row>, lo: int, hi: int)
    requires 0 <= lo && hi <= |s|
  {
    forall k :: lo <= k < hi ==> Comparable(o, s[k])
  }

  ghost predicate AllComparable(o: Order, s: seq<Row>) {
    ComparableIn(o, s, 0, |s|)
  }

  /** Every row of s[lo..hi] sorts no later than p. */
  ghost predicate UpTo(o: Order, s: seq<Row>, lo: int, hi: int, p: Row)
    requires 0 <= lo && hi <= |s|
  {
    forall k :: lo <= k < hi ==> Le(o, s[k], p)
  }

  /** Every row of s[lo..hi] sorts no earlier than p. */
  ghost predicate From(o: Order, s: seq<Row>, lo: int, hi: int, p: Row)
    requires 0 <= lo && hi <= |s|
  {
    forall k :: lo <= k < hi ==> Le(o, p, s[k])
  }

  ghost predicate SortedIn(o: Order, s: seq<Row>, lo: int, hi: int)
    requires 0 <= lo && hi <= |s|
  {
    forall a, b :: lo <= a < b < hi ==> Le(o, s[a], s[b])
  }

  ghost predicate Sorted(o: Order, s: seq<Row>) {
    SortedIn(o, s, 0, |s|)
  }

  /** t has the rows of s[lo..hi] there, in some order, and the same rows elsewhere. */
  ghost predicate Permuted(s: seq<Row>, t: seq<Row>, lo: int, hi: int) {
    && 0 <= lo <= hi <= |s| == |t|
    && multiset(s[lo..hi]) == multiset(t[lo..hi])
    && (forall k :: 0 <= k < lo ==> t[k] == s[k])
    && (forall k :: hi <= k < |s| ==> t[k] == s[k])
  }

  lemma {:induction false} PermutedStays(s: seq<Row>, t: seq<Row>, lo: int, hi: int, k: int)
    requires Permuted(s, t, lo, hi) && lo <= k < hi
    ensures exists j :: lo <= j < hi && s[j] == t[k]
  {
    assert t[lo..hi][k - lo] == t[k];
    assert t[k] in multiset(t[lo..hi]);
    assert t[k] in s[lo..hi];
    var j :| 0 <= j < hi - lo && s[lo..hi][j] == t[k];
    assert s[lo + j] == t[k];
  }

  lemma {:induction false} PermutedWider(s: seq<Row>, t: seq<Row>, lo: int, hi: int, lo': int, hi': int)
    requires Permuted(s, t, lo, hi) && 0 <= lo' <= lo && hi <= hi' <= |s|
    ensures Permuted(s, t, lo', hi')
  {
    assert s[lo'..hi'] == s[lo'..lo] + s[lo..hi] + s[hi..hi'];
    assert t[lo'..hi'] == t[lo'..lo] + t[lo..hi] + t[hi..hi'];
    assert s[lo'..lo] == t[lo'..lo];
    assert s[hi..hi'] == t[hi..hi'];
  }

  lemma {:induction false} SwapPermutes(s: seq<Row>, i: int, j: int, lo: int, hi: int)
    requires 0 <= lo <= i <= j < hi <= |s|
    ensures Permuted(s, s[i := s[j]][j := s[i]], lo, hi)
  {
    var t := s[i := s[j]][j := s[i]];
    var u := s[lo..hi];
    assert t[lo..hi] == u[i - lo := u[j - lo]][j - lo := u[i - lo]];
  }

  lemma {:induction false} PermutedTrans(s: seq<Row>, t: seq<Row>, u: seq<Row>, lo: int, hi: int)
    requires Permuted(s, t, lo, hi) && Permuted(t, u, lo, hi)
    ensures Permuted(s, u, lo, hi)
  {
  }
}
