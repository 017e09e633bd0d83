/** The tree read from left to right: its leaves, found by walking down every branch, are the leaf
    chain, and their entries one after the other are all the rows in ascending order of key. */
module TreeOrder {
  import opened Pages
  import opened Tree
  import opened TreeSplit
  import opened TreeJoin

  /** The leaves under p, left to right. */
  ghost function Leaves(t: BTree, p: PageId): seq<PageId>
    requires Shaped(t) && p in t.place
    decreases t.place[p].level, 1, 0
  {
    assert NodeOK(t, p);
    if t.place[p].level == 0 then [p] else LeavesOf(t, p, |t.pages[p].seps| + 1)
  }

  /** The leaves under the first n children of p. */
  ghost function LeavesOf(t: BTree, p: PageId, n: nat): seq<PageId>
    requires Shaped(t) && p in t.place && t.place[p].level > 0
    requires p in t.pages && t.pages[p].Internal? && n <= |t.pages[p].seps| + 1
    decreases t.place[p].level, 0, n
  {
    if n == 0 then [] else
      assert NodeOK(t, p) && ChildOK(t, p, n - 1);
      LeavesOf(t, p, n - 1) + Leaves(t, Child(t.pages[p], n - 1))
  }

  ghost predicate IsLeafPage(t: BTree, p: PageId) {
    p in t.place && p in t.pages && t.pages[p].Leaf? && t.place[p].level == 0
  }

  /** s is a stretch of the leaf chain that owns the keys from lo up to hi. */
  ghost predicate Chain(t: BTree, s: seq<PageId>, lo: nat, hi: nat) {
    && s != []
    && (forall i {:trigger s[i]} :: 0 <= i < |s| ==> IsLeafPage(t, s[i]))
    && t.place[s[0]].lo == lo && t.place[s[|s| - 1]].hi == hi
    && (forall i {:trigger Linked(t, s, i)} :: 0 <= i < |s| - 1 ==> Linked(t, s, i))
  }

  ghost predicate Linked(t: BTree, s: seq<PageId>, i: nat)
    requires i < |s| - 1 && IsLeafPage(t, s[i]) && IsLeafPage(t, s[i + 1])
  {
    && t.pages[s[i]].next == s[i + 1] && t.pages[s[i + 1]].prev == s[i]
    && t.place[s[i]].hi == t.place[s[i + 1]].lo
  }

  lemma {:induction false} ChainsMeet(t: BTree, s: seq<PageId>, s': seq<PageId>, lo: nat, mid: nat, hi: nat)
    requires Shaped(t) && Chain(t, s, lo, mid) && Chain(t, s', mid, hi) && mid < KEY_LIMIT
    ensures Chain(t, s + s', lo, hi)
  {
    var both := s + s';
    assert NodeOK(t, s[|s| - 1]) && NodeOK(t, s'[0]);
    assert NodeOK(t, t.pages[s[|s| - 1]].next);
    SamePage(t, t.pages[s[|s| - 1]].next, s'[0]);
    forall i | 0 <= i < |both| - 1
      ensures Linked(t, both, i)
    {
      if i < |s| - 1 {
        assert Linked(t, s, i);
      } else if i >= |s| {
        assert Linked(t, s', i - |s|);
      }
    }
  }

  lemma {:induction false} LeavesChain(t: BTree, p: PageId)
    requires Shaped(t) && p in t.place
    ensures Chain(t, Leaves(t, p), t.place[p].lo, t.place[p].hi)
    decreases t.place[p].level, 1, 0
  {
    assert NodeOK(t, p);
    if t.place[p].level > 0 {
      LeavesOfChain(t, p, |t.pages[p].seps| + 1);
    }
  }

  lemma {:induction false} LeavesOfChain(t: BTree, p: PageId, n: nat)
    requires Shaped(t) && p in t.place && t.place[p].level > 0
    requires p in t.pages && t.pages[p].Internal? && 0 < n <= |t.pages[p].seps| + 1
    ensures Chain(t, LeavesOf(t, p, n), t.place[p].lo, Fence(t.pages[p].seps, t.place[p], n))
    decreases t.place[p].level, 0, n
  {
    assert NodeOK(t, p) && ChildOK(t, p, n - 1);
    var c := Child(t.pages[p], n - 1);
    LeavesChain(t, c);
    if n == 1 {
      assert LeavesOf(t, p, 0) + Leaves(t, c) == Leaves(t, c);
    } else {
      LeavesOfChain(t, p, n - 1);
      assert NodeOK(t, c);
      ChainsMeet(t, LeavesOf(t, p, n - 1), Leaves(t, c), t.place[p].lo,
                 Fence(t.pages[p].seps, t.place[p], n - 1), Fence(t.pages[p].seps, t.place[p], n));
    }
  }

  ghost function EntriesOf(t: BTree, s: seq<PageId>): seq<LeafEntry>
    requires forall i {:trigger s[i]} :: 0 <= i < |s| ==> IsLeafPage(t, s[i])
  {
    if s == [] then [] else
      var last := s[|s| - 1];
      assert IsLeafPage(t, last);
      EntriesOf(t, s[..|s| - 1]) + t.pages[last].entries
  }

  lemma {:induction false} ChainRows(t: BTree, s: seq<PageId>, lo: nat, hi: nat)
    requires Shaped(t) && Chain(t, s, lo, hi)
    ensures KeysAscend(EntriesOf(t, s)) && HoldsRows(EntriesOf(t, s), t.rows, lo, hi) && lo < hi
    decreases |s|
  {
    var n := |s| - 1;
    assert NodeOK(t, s[n]);
    if n == 0 {
      assert EntriesOf(t, s[..0]) == [];
      assert EntriesOf(t, s) == t.pages[s[0]].entries;
    } else {
      var front := s[..n];
      assert Linked(t, s, n - 1);
      forall i | 0 <= i < |front| - 1
        ensures Linked(t, front, i)
      {
        assert Linked(t, s, i);
      }
      ChainRows(t, front, lo, t.place[s[n]].lo);
      JoinRows(EntriesOf(t, front), t.pages[s[n]].entries, t.rows, lo, t.place[s[n]].lo, hi);
    }
  }

  /** Some leaf of a chain owns each key of its interval. */
  lemma {:induction false} ChainCovers(t: BTree, s: seq<PageId>, lo: nat, hi: nat, k: nat) returns (i: nat)
    requires Chain(t, s, lo, hi) && lo <= k < hi
    ensures i < |s| && t.place[s[i]].lo <= k < t.place[s[i]].hi
    decreases |s|
  {
    var n := |s| - 1;
    if t.place[s[n]].lo <= k {
      i := n;
    } else {
      assert n > 0;
      var front := s[..n];
      assert Linked(t, s, n - 1);
      forall i | 0 <= i < |front| - 1
        ensures Linked(t, front, i)
      {
        assert Linked(t, s, i);
      }
      i := ChainCovers(t, front, lo, t.place[s[n]].lo, k);
    }
  }

  /** The tree read from left to right. Its leaves are all the leaf pages there are; each names the one
      after it and the one before it; the first has none before it and the last none after it; and
      their entries in this order are exactly the rows, by ascending key. */
  lemma {:induction false} InOrder(t: BTree)
    requires Shaped(t)
    ensures var s := Leaves(t, t.root);
            && Chain(t, s, 0, KEY_LIMIT)
            && t.pages[s[0]].prev == 0 && t.pages[s[|s| - 1]].next == 0
            && (forall p :: IsLeafPage(t, p) <==> p in s)
            && KeysAscend(EntriesOf(t, s)) && HoldsRows(EntriesOf(t, s), t.rows, 0, KEY_LIMIT)
  {
    assert NodeOK(t, t.root);
    LeavesChain(t, t.root);
    var s := Leaves(t, t.root);
    ChainRows(t, s, 0, KEY_LIMIT);
    assert NodeOK(t, s[0]) && NodeOK(t, s[|s| - 1]);
    forall p | IsLeafPage(t, p)
      ensures p in s
    {
      assert NodeOK(t, p);
      var i := ChainCovers(t, s, 0, KEY_LIMIT, t.place[p].lo);
      if p != s[i] {
        LevelsDisjoint(t, p, s[i]);
      }
    }
  }
}
