/** What makes a set of pages a B+ tree.

    Every condition is about one page and the pages it names, so that an operation that
    rewrites a handful of pages is checked on those pages alone. The map `place` says, for
    each page of the tree, how far above the leaves it is and which half-open interval of keys
    belongs to it; `rows` is the finite map from keys to row references that the tree stands for. */
module Tree {
  import opened Pages

  datatype Place = Place(level: nat, lo: nat, hi: nat)

  datatype BTree = BTree(
    pages: map<PageId, Page>,
    root: PageId,
    place: map<PageId, Place>,
    rows: map<nat, RowRef>)

  /* ---------- one page ---------- */

  predicate KeysAscend(es: seq<LeafEntry>) {
    forall i, j :: 0 <= i < j < |es| ==> es[i].key < es[j].key
  }

  ghost predicate HasKey(es: seq<LeafEntry>, k: nat) {
    exists i :: 0 <= i < |es| && es[i].key == k
  }

  /** The entries of a leaf are exactly the rows whose key lies in its interval. */
  ghost predicate HoldsRows(es: seq<LeafEntry>, rows: map<nat, RowRef>, lo: nat, hi: nat) {
    && (forall i {:trigger es[i]} :: 0 <= i < |es| ==>
          lo <= es[i].key < hi && es[i].key in rows && rows[es[i].key] == es[i].ref)
    && (forall k {:trigger k in rows} :: k in rows && lo <= k < hi ==> HasKey(es, k))
  }

  /** The keys that fence the children of an internal node, its own interval included:
      child i holds the keys from fence i up to, not including, fence i + 1. */
  function Fence(seps: seq<Separator>, pl: Place, i: nat): nat
    requires i <= |seps| + 1
  {
    if i == 0 then pl.lo else if i <= |seps| then seps[i - 1].key else pl.hi
  }

  ghost predicate FencesAscend(seps: seq<Separator>, pl: Place) {
    forall i, j {:trigger Fence(seps, pl, i), Fence(seps, pl, j)} ::
      0 <= i < j <= |seps| + 1 ==> Fence(seps, pl, i) < Fence(seps, pl, j)
  }

  /* ---------- a page and its neighbours ---------- */

  ghost predicate InTree(t: BTree, p: PageId) {
    p in t.place && p in t.pages
  }

  /** Child i of p is in the tree one level down, names p as its parent and owns
      exactly the keys between its two fences. */
  ghost predicate ChildOK(t: BTree, p: PageId, i: nat)
    requires InTree(t, p) && t.pages[p].Internal? && i <= |t.pages[p].seps|
  {
    var c := Child(t.pages[p], i);
    && InTree(t, c)
    && IsNode(t.pages[c])
    && t.pages[c].parent == p
    && t.place[c].level + 1 == t.place[p].level
    && t.place[c].lo == Fence(t.pages[p].seps, t.place[p], i)
    && t.place[c].hi == Fence(t.pages[p].seps, t.place[p], i + 1)
  }

  /** The leaf chain at p: the next leaf starts where p ends and points back, and the other way round. */
  ghost predicate ChainOK(t: BTree, p: PageId)
    requires InTree(t, p) && t.pages[p].Leaf?
  {
    var next, prev := t.pages[p].next, t.pages[p].prev;
    && (next == 0 <==> t.place[p].hi == KEY_LIMIT)
    && (next != 0 ==> InTree(t, next) && t.pages[next].Leaf? && t.pages[next].prev == p
                      && t.place[next].lo == t.place[p].hi)
    && (prev == 0 <==> t.place[p].lo == 0)
    && (prev != 0 ==> InTree(t, prev) && t.pages[prev].Leaf? && t.pages[prev].next == p
                      && t.place[prev].hi == t.place[p].lo)
  }

  ghost predicate LeafOK(t: BTree, p: PageId)
    requires InTree(t, p)
  {
    && t.pages[p].Leaf?
    && KeysAscend(t.pages[p].entries)
    && HoldsRows(t.pages[p].entries, t.rows, t.place[p].lo, t.place[p].hi)
    && ChainOK(t, p)
  }

  ghost predicate InternalOK(t: BTree, p: PageId)
    requires InTree(t, p)
  {
    && t.pages[p].Internal?
    && FencesAscend(t.pages[p].seps, t.place[p])
    && (forall i {:trigger ChildOK(t, p, i)} :: 0 <= i <= |t.pages[p].seps| ==> ChildOK(t, p, i))
  }

  ghost predicate ParentOK(t: BTree, p: PageId)
    requires InTree(t, p) && IsNode(t.pages[p])
  {
    if p == t.root then
      t.pages[p].parent == 0 && t.place[p].lo == 0 && t.place[p].hi == KEY_LIMIT
    else
      InTree(t, t.pages[p].parent) && HasChild(t.pages[t.pages[p].parent], p)
  }

  ghost predicate NodeOK(t: BTree, p: PageId) {
    && InTree(t, p)
    && p != 0
    && IsNode(t.pages[p])
    && t.root in t.place
    && t.place[p].lo < t.place[p].hi <= KEY_LIMIT
    && t.place[p].level <= t.place[t.root].level
    && (if t.place[p].level == 0 then LeafOK(t, p) else InternalOK(t, p))
    && ParentOK(t, p)
  }

  /** The shape of the tree, with no word about how full its pages are. */
  ghost predicate Shaped(t: BTree) {
    && t.root in t.place
    && (forall p {:trigger NodeOK(t, p)} :: p in t.place ==> NodeOK(t, p))
    && (forall k :: k in t.rows ==> k < KEY_LIMIT)
  }

  /* ---------- how full the pages are ---------- */

  /** The most entries a leaf and an internal page can hold; each at least two. */
  datatype Caps = Caps(leafMax: nat, internalMax: nat)

  ghost predicate CapsOK(caps: Caps) {
    caps.leafMax >= 2 && caps.internalMax >= 2
  }

  predicate SizeOK(caps: Caps, page: Page, isRoot: bool) {
    match page
    case Leaf(_, es, _, _) => |es| <= caps.leafMax && (!isRoot ==> |es| >= caps.leafMax / 2)
    case Internal(_, _, seps) =>
      |seps| <= caps.internalMax && |seps| >= if isRoot then 1 else caps.internalMax / 2
    case _ => false
  }

  /** Every page of the tree but x is neither too full nor too empty. */
  ghost predicate FilledBut(caps: Caps, t: BTree, x: PageId) {
    forall p {:trigger Filled(caps, t, p)} :: p in t.place && p != x ==> Filled(caps, t, p)
  }

  ghost predicate Filled(caps: Caps, t: BTree, p: PageId) {
    p in t.pages && SizeOK(caps, t.pages[p], p == t.root)
  }

  /** A well-formed B+ tree. No page of the tree is page zero, so zero exempts nothing. */
  ghost predicate WellFormed(caps: Caps, t: BTree) {
    Shaped(t) && FilledBut(caps, t, 0)
  }

  /* ---------- what the shape gives ---------- */

  lemma {:induction false} ParentOf(t: BTree, p: PageId) returns (i: nat)
    requires Shaped(t) && p in t.place && p != t.root
    ensures p in t.pages && IsNode(t.pages[p])
    ensures var q := t.pages[p].parent;
            && q in t.place && q in t.pages && t.pages[q].Internal?
            && i <= |t.pages[q].seps| && Child(t.pages[q], i) == p
            && t.place[q].level == t.place[p].level + 1
            && NodeOK(t, q) && InternalOK(t, q) && ChildOK(t, q, i)
  {
    assert NodeOK(t, p);
    var q := t.pages[p].parent;
    assert NodeOK(t, q);
    i :| 0 <= i <= |t.pages[q].seps| && Child(t.pages[q], i) == p;
    assert ChildOK(t, q, i);
  }

  /** Two pages on one level own disjoint intervals. */
  lemma {:induction false} LevelsDisjoint(t: BTree, p: PageId, q: PageId)
    requires Shaped(t) && p in t.place && q in t.place && p != q
    requires t.place[p].level == t.place[q].level
    ensures t.place[p].hi <= t.place[q].lo || t.place[q].hi <= t.place[p].lo
    decreases t.place[t.root].level - t.place[p].level
  {
    assert NodeOK(t, p) && NodeOK(t, q);
    if p == t.root {
      var j := ParentOf(t, q);
    } else if q == t.root {
      var i := ParentOf(t, p);
    } else {
      var i := ParentOf(t, p);
      var j := ParentOf(t, q);
      var pp, qq := t.pages[p].parent, t.pages[q].parent;
      if pp == qq {
        assert i != j;
      } else {
        LevelsDisjoint(t, pp, qq);
        FenceWithin(t, pp, i);
        FenceWithin(t, qq, j);
      }
    }
  }

  lemma {:induction false} FenceWithin(t: BTree, p: PageId, i: nat)
    requires Shaped(t) && p in t.place && p in t.pages && t.pages[p].Internal? && i <= |t.pages[p].seps|
    requires InternalOK(t, p)
    ensures t.place[p].lo <= Fence(t.pages[p].seps, t.place[p], i)
    ensures Fence(t.pages[p].seps, t.place[p], i) < Fence(t.pages[p].seps, t.place[p], i + 1)
    ensures Fence(t.pages[p].seps, t.place[p], i + 1) <= t.place[p].hi
  {
    var n := |t.pages[p].seps|;
    assert Fence(t.pages[p].seps, t.place[p], 0) == t.place[p].lo;
    assert Fence(t.pages[p].seps, t.place[p], n + 1) == t.place[p].hi;
  }

  /** A page is known by its level and where its interval starts. */
  lemma {:induction false} SamePage(t: BTree, p: PageId, q: PageId)
    requires Shaped(t) && p in t.place && q in t.place
    requires t.place[p].level == t.place[q].level && t.place[p].lo == t.place[q].lo
    ensures p == q
  {
    assert NodeOK(t, p) && NodeOK(t, q);
    if p != q {
      LevelsDisjoint(t, p, q);
    }
  }

  /** Siblings are neighbours in the leaf chain. */
  lemma {:induction false} SiblingsLinked(t: BTree, q: PageId, j: nat)
    requires Shaped(t) && q in t.place && q in t.pages && t.pages[q].Internal? && j < |t.pages[q].seps|
    requires t.place[q].level == 1
    ensures var a, b := Child(t.pages[q], j), Child(t.pages[q], j + 1);
            && a != b && a in t.pages && b in t.pages && t.pages[a].Leaf? && t.pages[b].Leaf?
            && t.pages[a].next == b && t.pages[b].prev == a
  {
    assert NodeOK(t, q);
    assert ChildOK(t, q, j) && ChildOK(t, q, j + 1);
    var a, b := Child(t.pages[q], j), Child(t.pages[q], j + 1);
    assert NodeOK(t, a) && NodeOK(t, b);
    assert NodeOK(t, t.pages[a].next);
    SamePage(t, t.pages[a].next, b);
  }
}
