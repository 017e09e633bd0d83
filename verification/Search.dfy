/** The loops inside one tree page: the two binary searches and the shifts that open and close a gap. */
module Search {
  import opened Pages
  import opened Tree
  import opened TreeSplit
  import opened TreeEntries

  method LeafFind(es: seq<LeafEntry>, key: nat) returns (lo: nat)
    requires KeysAscend(es)
    ensures IsLeafSlot(es, key, lo)
  {
    lo := 0;
    var hi := |es|;
    while lo < hi
      invariant 0 <= lo <= hi <= |es|
      invariant forall i :: 0 <= i < lo ==> es[i].key < key
      invariant forall i :: hi <= i < |es| ==> key <= es[i].key
    {
      var mid := (lo + hi) / 2;
      if es[mid].key < key {
        lo := mid + 1;
      } else {
        hi := mid;
      }
    }
  }

  predicate SepsAscend(seps: seq<Separator>) {
    forall i, j :: 0 <= i < j < |seps| ==> seps[i].key < seps[j].key
  }

  /** The child that a key belongs to: separators up to idx are not above the key, later ones are. */
  ghost predicate IsChildSlot(seps: seq<Separator>, key: nat, idx: nat) {
    && idx <= |seps|
    && (forall i :: 0 <= i < idx ==> seps[i].key <= key)
    && (forall i :: idx <= i < |seps| ==> key < seps[i].key)
  }

  method InternalFind(seps: seq<Separator>, key: nat) returns (lo: nat)
    requires SepsAscend(seps)
    ensures IsChildSlot(seps, key, lo)
  {
    lo := 0;
    var hi := |seps|;
    while lo < hi
      invariant 0 <= lo <= hi <= |seps|
      invariant forall i :: 0 <= i < lo ==> seps[i].key <= key
      invariant forall i :: hi <= i < |seps| ==> key < seps[i].key
    {
      var mid := (lo + hi) / 2;
      if seps[mid].key <= key {
        lo := mid + 1;
      } else {
        hi := mid;
      }
    }
  }

  lemma {:induction false} FencesGiveSeps(seps: seq<Separator>, pl: Place)
    requires FencesAscend(seps, pl)
    ensures SepsAscend(seps)
  {
    forall i, j | 0 <= i < j < |seps|
      ensures seps[i].key < seps[j].key
    {
      assert Fence(seps, pl, i + 1) < Fence(seps, pl, j + 1);
    }
  }

  /** The slot of a key is the child whose fences enclose it. */
  lemma {:induction false} ChildSlot(seps: seq<Separator>, pl: Place, key: nat, idx: nat)
    requires FencesAscend(seps, pl) && pl.lo <= key < pl.hi && IsChildSlot(seps, key, idx)
    ensures Fence(seps, pl, idx) <= key < Fence(seps, pl, idx + 1)
    ensures forall j :: 0 <= j <= |seps| && Fence(seps, pl, j) <= key < Fence(seps, pl, j + 1) ==> j == idx
  {
  }

  /** Entries from idx on move up by one, from the last one down, and x goes into the gap. */
  method ShiftIn<T>(s: seq<T>, idx: nat, x: T) returns (r: seq<T>)
    requires idx <= |s|
    ensures r == PutAt(s, idx, x)
  {
    r := s + [x];
    var i := |s|;
    while i > idx
      invariant idx <= i <= |s| && |r| == |s| + 1
      invariant forall k :: 0 <= k < i ==> r[k] == s[k]
      invariant forall k :: i < k <= |s| ==> r[k] == s[k - 1]
    {
      r := r[i := r[i - 1]];
      i := i - 1;
    }
    r := r[idx := x];
  }

  /** Entries after idx move down by one over it. */
  method ShiftOut<T>(s: seq<T>, idx: nat) returns (r: seq<T>)
    requires idx < |s|
    ensures r == DropAt(s, idx)
  {
    r := s;
    var i := idx;
    while i < |s| - 1
      invariant idx <= i <= |s| - 1 && |r| == |s|
      invariant forall k :: 0 <= k < idx ==> r[k] == s[k]
      invariant forall k :: idx <= k < i ==> r[k] == s[k + 1]
      invariant forall k :: i <= k < |s| ==> r[k] == s[k]
    {
      r := r[i := r[i + 1]];
      i := i + 1;
    }
    r := r[..|s| - 1];
  }

  /** Which child of the page c is, or -1. */
  method FindChildIdx(page: Page, c: PageId) returns (r: int)
    requires page.Internal?
    ensures -1 <= r <= |page.seps|
    ensures r >= 0 ==> Child(page, r) == c && forall i :: 0 <= i < r ==> Child(page, i) != c
    ensures r == -1 <==> !HasChild(page, c)
  {
    if page.leftmost == c {
      assert Child(page, 0) == c;
      return 0;
    }
    var i := 0;
    while i < |page.seps|
      invariant 0 <= i <= |page.seps|
      invariant forall k :: 0 <= k <= i ==> Child(page, k) != c
    {
      if page.seps[i].child == c {
        assert Child(page, i + 1) == c;
        return i + 1;
      }
      i := i + 1;
    }
    return -1;
  }
}
