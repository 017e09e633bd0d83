/** The ids a scan has collected: sorted, each kept once, and locked in that order. */
module RowIds {

  predicate Ascending(ids: seq<nat>) {
    forall i, j :: 0 <= i < j < |ids| ==> ids[i] < ids[j]
  }

  predicate InOrder(ids: seq<nat>) {
    forall i, j :: 0 <= i < j < |ids| ==> ids[i] <= ids[j]
  }

  function Insert(ids: seq<nat>, x: nat): seq<nat> {
    if ids == [] || x <= ids[0] then [x] + ids else [ids[0]] + Insert(ids[1..], x)
  }

  /** What the library's sort is asked for. */
  function Sort(ids: seq<nat>): seq<nat> {
    if ids == [] then [] else Insert(Sort(ids[1..]), ids[0])
  }

  lemma {:induction false} InsertInOrder(ids: seq<nat>, x: nat)
    requires InOrder(ids)
    ensures InOrder(Insert(ids, x)) && multiset(Insert(ids, x)) == multiset(ids) + multiset{x}
    ensures forall k :: k in Insert(ids, x) <==> k == x || k in ids
  {
    if ids != [] && x > ids[0] {
      InsertInOrder(ids[1..], x);
      assert ids == [ids[0]] + ids[1..];
      forall k | k in Insert(ids[1..], x)
        ensures ids[0] <= k
      {
        if k != x {
          var j :| 1 <= j < |ids| && ids[j] == k;
        }
      }
      InFront(ids[0], Insert(ids[1..], x));
    } else {
      forall k | k in ids
        ensures x <= k
      {
        var j :| 0 <= j < |ids| && ids[j] == k;
      }
      InFront(x, ids);
    }
  }

  lemma {:induction false} InFront(x: nat, ids: seq<nat>)
    requires InOrder(ids) && forall k :: k in ids ==> x <= k
    ensures InOrder([x] + ids)
  {
    forall i, j | 0 <= i < j < |[x] + ids|
      ensures ([x] + ids)[i] <= ([x] + ids)[j]
    {
      assert ([x] + ids)[j] == ids[j - 1] && ids[j - 1] in ids;
    }
  }

  lemma {:induction false} SortInOrder(ids: seq<nat>)
    ensures InOrder(Sort(ids)) && multiset(Sort(ids)) == multiset(ids)
    ensures forall k :: k in Sort(ids) <==> k in ids
  {
    if ids != [] {
      SortInOrder(ids[1..]);
      InsertInOrder(Sort(ids[1..]), ids[0]);
      assert ids == [ids[0]] + ids[1..];
    }
  }

  /** The first `write` places hold, ascending, the values of s[..read]. */
  ghost predicate Compacted(a: seq<nat>, s: seq<nat>, read: nat, write: nat) {
    && write <= read <= |s| == |a|
    && Ascending(a[..write])
    && (forall k :: k in a[..write] <==> k in s[..read])
    && (forall j :: read <= j < |s| ==> a[j] == s[j])
  }

  lemma {:induction false} CompactStep(a: seq<nat>, s: seq<nat>, read: nat, write: nat)
    requires InOrder(s) && Compacted(a, s, read, write) && read < |s|
    ensures write == 0 || a[read] != a[write - 1] ==> Compacted(a[write := a[read]], s, read + 1, write + 1)
    ensures !(write == 0 || a[read] != a[write - 1]) ==> Compacted(a, s, read + 1, write)
  {
    assert s[..read + 1] == s[..read] + [s[read]];
    forall k | k in a[..write]
      ensures k <= s[read]
    {
      assert k in s[..read];
    }
    if write == 0 || a[read] != a[write - 1] {
      var b := a[write := a[read]];
      assert b[..write + 1] == a[..write] + [s[read]];
      if write > 0 {
        assert a[write - 1] in a[..write];
        forall j | 0 <= j < write
          ensures a[j] < s[read]
        {
          assert a[..write][j] <= a[..write][write - 1];
        }
      }
    } else {
      assert s[read] == a[..write][write - 1];
    }
  }

  /** Drop repeated values in place; the values that are left are the first `write` ones. */
  method Compact(ids: array<nat>) returns (write: nat)
    requires InOrder(ids[..])
    modifies ids
    ensures write <= ids.Length && Ascending(ids[..write])
    ensures forall k :: k in ids[..write] <==> k in old(ids[..])
  {
    ghost var s := ids[..];
    write := 0;
    var read := 0;
    while read < ids.Length
      invariant Compacted(ids[..], s, read, write)
    {
      CompactStep(ids[..], s, read, write);
      if write == 0 || ids[read] != ids[write - 1] {
        ids[write] := ids[read];
        write := write + 1;
      }
      read := read + 1;
    }
    assert s[..read] == s;
    assert ids[..][..write] == ids[..write];
  }

  /** Lock every collected row, in ascending order, stopping at the first lock that is not granted.
      `asked` are the requests that were made. */
  method LockCollected(collected: seq<nat>, grant: nat -> bool) returns (ids: seq<nat>, ok: bool, failed: nat, ghost asked: seq<nat>)
    ensures Ascending(ids) && forall k :: k in ids <==> k in collected
    ensures ok <==> forall k :: k in collected ==> grant(k)
    ensures ok ==> asked == ids
    ensures !ok ==> asked <= ids && asked != [] && asked[|asked| - 1] == failed && !grant(failed)
    ensures forall i :: 0 <= i < |asked| - 1 ==> grant(asked[i])
  {
    ids, ok, failed, asked := [], true, 0, [];
    if |collected| == 0 {
      return;
    }
    SortInOrder(collected);
    var sorted := Sort(collected);
    var a := new nat[|sorted|](i requires 0 <= i < |sorted| => sorted[i]);
    assert a[..] == sorted;
    var write := Compact(a);
    ids := a[..write];
    var i := 0;
    while i < write
      invariant 0 <= i <= write && asked == ids[..i]
      invariant forall j :: 0 <= j < i ==> grant(ids[j])
    {
      asked := asked + [ids[i]];
      if !grant(ids[i]) {
        ok, failed := false, ids[i];
        assert ids[i] in ids;
        return;
      }
      i := i + 1;
    }
  }
}
