/** Splitting a node of the tree in two and joining two siblings into one, as whole-tree
    transformations that keep the tree's shape. A borrow is a join followed by a split elsewhere. */
module TreeSplit {
  import opened Pages
  import opened Tree

  function PutAt<T>(s: seq<T>, i: nat, x: T): (r: seq<T>)
    requires i <= |s|
  {
    s[..i] + [x] + s[i..]
  }

  function DropAt<T>(s: seq<T>, i: nat): (r: seq<T>)
    requires i < |s|
  {
    s[..i] + s[i + 1..]
  }

  function WithPrev(page: Page, prev: PageId): Page {
    match page
    case Leaf(parent, entries, next, _) => Leaf(parent, entries, next, prev)
    case _ => page
  }

  /** The write of the neighbour's back link, skipped when there is no neighbour. */
  function Relink(pages: map<PageId, Page>, n: PageId, prev: PageId): map<PageId, Page> {
    if n == 0 || n !in pages then pages else pages[n := WithPrev(pages[n], prev)]
  }

  function WithSeps(page: Page, seps: seq<Separator>): Page {
    match page
    case Internal(parent, leftmost, _) => Internal(parent, leftmost, seps)
    case _ => page
  }

  /* ---------- the separators of the parent ---------- */

  /** A new separator at j puts one child right after child j and moves the later ones up. */
  lemma {:induction false} PutSeparator(page: Page, pl: Place, j: nat, x: Separator)
    requires page.Internal? && j <= |page.seps|
    ensures var after := WithSeps(page, PutAt(page.seps, j, x));
            && (forall i {:trigger Child(after, i)} :: 0 <= i <= |page.seps| + 1 ==>
                  Child(after, i) == if i <= j then Child(page, i) else if i == j + 1 then x.child else Child(page, i - 1))
            && (forall i {:trigger Fence(after.seps, pl, i)} :: 0 <= i <= |page.seps| + 2 ==>
                  Fence(after.seps, pl, i) ==
                  if i <= j then Fence(page.seps, pl, i) else if i == j + 1 then x.key else Fence(page.seps, pl, i - 1))
  {
  }

  lemma {:induction false} PutKeepsChildren(page: Page, j: nat, x: Separator, c: PageId)
    requires page.Internal? && j <= |page.seps| && (HasChild(page, c) || c == x.child)
    ensures HasChild(WithSeps(page, PutAt(page.seps, j, x)), c)
  {
    var pl := Place(0, 0, 0);
    PutSeparator(page, pl, j, x);
    var after := WithSeps(page, PutAt(page.seps, j, x));
    if c == x.child {
      assert Child(after, j + 1) == c;
    } else {
      var i :| 0 <= i <= |page.seps| && Child(page, i) == c;
      assert Child(after, if i <= j then i else i + 1) == c;
    }
  }

  lemma {:induction false} PutFences(seps: seq<Separator>, pl: Place, j: nat, x: Separator)
    requires j <= |seps| && FencesAscend(seps, pl)
    requires Fence(seps, pl, j) < x.key < Fence(seps, pl, j + 1)
    ensures FencesAscend(PutAt(seps, j, x), pl)
  {
    var page := Internal(0, 0, seps);
    PutSeparator(page, pl, j, x);
    var after := PutAt(seps, j, x);
    forall i, k | 0 <= i < k <= |after| + 1
      ensures Fence(after, pl, i) < Fence(after, pl, k)
    {
      var i', k' := if i <= j then i else i - 1, if k <= j then k else k - 1;
      assert Fence(WithSeps(page, after).seps, pl, i) == if i == j + 1 then x.key else Fence(seps, pl, i');
      assert Fence(WithSeps(page, after).seps, pl, k) == if k == j + 1 then x.key else Fence(seps, pl, k');
      assert Fence(seps, pl, j) <= Fence(seps, pl, i') || i' < j;
      assert Fence(seps, pl, k') <= Fence(seps, pl, j) || k' > j;
    }
  }

  /* ---------- splitting a leaf ---------- */

  ghost predicate LeafPair(t: BTree, q: PageId, j: nat) {
    q in t.place && q in t.pages && t.pages[q].Internal? && j <= |t.pages[q].seps| && t.place[q].level == 1
  }

  /** Child j of q keeps its first m entries; the new page b takes the rest and its place in the chain. */
  ghost function SplitLeaf(t: BTree, q: PageId, j: nat, m: nat, b: PageId): BTree
    requires Shaped(t) && LeafPair(t, q, j)
    requires var a := Child(t.pages[q], j); a in t.place && a in t.pages && t.pages[a].Leaf? && m < |t.pages[a].entries|
  {
    var a := Child(t.pages[q], j);
    var leaf := t.pages[a];
    var key := leaf.entries[m].key;
    t.(pages := Relink(t.pages, leaf.next, b)
                [a := Leaf(q, leaf.entries[..m], b, leaf.prev)]
                [b := Leaf(q, leaf.entries[m..], leaf.next, a)]
                [q := WithSeps(t.pages[q], PutAt(t.pages[q].seps, j, Separator(key, b)))],
       place := t.place[a := t.place[a].(hi := key)][b := t.place[a].(lo := key)])
  }

  ghost predicate CanSplitLeaf(t: BTree, q: PageId, j: nat, m: nat, b: PageId) {
    && Shaped(t) && LeafPair(t, q, j) && b != 0 && b !in t.place
    && (var a := Child(t.pages[q], j);
        a in t.place && a in t.pages && t.pages[a].Leaf? && 0 < m < |t.pages[a].entries|)
  }

  lemma {:induction false} SplitRows(es: seq<LeafEntry>, rows: map<nat, RowRef>, lo: nat, hi: nat, m: nat)
    requires KeysAscend(es) && HoldsRows(es, rows, lo, hi) && 0 < m < |es|
    ensures lo < es[m].key < hi
    ensures KeysAscend(es[..m]) && HoldsRows(es[..m], rows, lo, es[m].key)
    ensures KeysAscend(es[m..]) && HoldsRows(es[m..], rows, es[m].key, hi)
  {
    assert es[0].key < es[m].key;
    forall k | k in rows && lo <= k < es[m].key
      ensures HasKey(es[..m], k)
    {
      var i :| 0 <= i < |es| && es[i].key == k;
      assert es[..m][i].key == k;
    }
    forall k | k in rows && es[m].key <= k < hi
      ensures HasKey(es[m..], k)
    {
      var i :| 0 <= i < |es| && es[i].key == k;
      assert es[m..][i - m].key == k;
    }
  }

  /** Same parent, same place: all that a page's parent asks of it. */
  ghost predicate SameChild(t: BTree, t': BTree, c: PageId) {
    && InTree(t, c) && IsNode(t.pages[c])
    && InTree(t', c) && IsNode(t'.pages[c])
    && t'.pages[c].parent == t.pages[c].parent && t'.place[c] == t.place[c]
  }

  /** An internal page that is not rewritten stays well formed if its children look the same to it. */
  lemma {:induction false} UntouchedInternal(t: BTree, t': BTree, p: PageId)
    requires NodeOK(t, p) && t.place[p].level > 0
    requires t'.root == t.root && t.root in t'.place && t'.place[t.root].level == t.place[t.root].level
    requires InTree(t', p) && t'.pages[p] == t.pages[p] && t'.place[p] == t.place[p] && ParentOK(t', p)
    requires forall i {:trigger ChildOK(t, p, i)} :: 0 <= i <= |t.pages[p].seps| ==> SameChild(t, t', Child(t.pages[p], i))
    ensures NodeOK(t', p)
  {
    forall i | 0 <= i <= |t'.pages[p].seps|
      ensures ChildOK(t', p, i)
    {
      assert ChildOK(t, p, i);
    }
  }

  lemma {:induction false} SplitLeafParent(t: BTree, q: PageId, j: nat, m: nat, b: PageId)
    requires CanSplitLeaf(t, q, j, m, b)
    ensures InTree(SplitLeaf(t, q, j, m, b), q) && InternalOK(SplitLeaf(t, q, j, m, b), q)
  {
    SplitLeafFacts(t, q, j, m, b);
    var a := Child(t.pages[q], j);
    var t' := SplitLeaf(t, q, j, m, b);
    SplitRows(t.pages[a].entries, t.rows, t.place[a].lo, t.place[a].hi, m);
    PutFences(t.pages[q].seps, t.place[q], j, Separator(t.pages[a].entries[m].key, b));
    forall i | 0 <= i <= |t'.pages[q].seps|
      ensures ChildOK(t', q, i)
    {
      SplitLeafChild(t, q, j, m, b, i);
    }
  }

  lemma {:induction false} SplitLeafChild(t: BTree, q: PageId, j: nat, m: nat, b: PageId, i: nat)
    requires CanSplitLeaf(t, q, j, m, b)
    requires InTree(SplitLeaf(t, q, j, m, b), q) && i <= |t.pages[q].seps| + 1
    ensures ChildOK(SplitLeaf(t, q, j, m, b), q, i)
  {
    var a := Child(t.pages[q], j);
    assert NodeOK(t, q) && ChildOK(t, q, j) && NodeOK(t, a);
    var x := Separator(t.pages[a].entries[m].key, b);
    PutSeparator(t.pages[q], t.place[q], j, x);
    if i != j && i != j + 1 {
      var i' := if i <= j then i else i - 1;
      assert ChildOK(t, q, i');
      FencesApart(t, q, i', j);
    }
  }

  /** Different positions hold different children. */
  lemma {:induction false} FencesApart(t: BTree, q: PageId, i: nat, j: nat)
    requires InTree(t, q) && t.pages[q].Internal? && InternalOK(t, q)
    requires i <= |t.pages[q].seps| && j <= |t.pages[q].seps| && i != j
    ensures Child(t.pages[q], i) != Child(t.pages[q], j)
  {
    assert ChildOK(t, q, i) && ChildOK(t, q, j);
    assert Fence(t.pages[q].seps, t.place[q], i) != Fence(t.pages[q].seps, t.place[q], j);
  }

  /** What the split does to a page other than the three it is about. */
  lemma {:induction false} SplitLeafAt(t: BTree, q: PageId, j: nat, m: nat, b: PageId, p: PageId)
    requires CanSplitLeaf(t, q, j, m, b)
    requires p in t.place && p != q && p != Child(t.pages[q], j)
    ensures var t' := SplitLeaf(t, q, j, m, b);
            && InTree(t, p) && IsNode(t.pages[p]) && InTree(t', p) && t'.place[p] == t.place[p]
            && t'.pages[p] == (if p == t.pages[Child(t.pages[q], j)].next then WithPrev(t.pages[p], b) else t.pages[p])
  {
    assert NodeOK(t, p);
  }

  lemma {:induction false} SplitLeafFacts(t: BTree, q: PageId, j: nat, m: nat, b: PageId)
    requires CanSplitLeaf(t, q, j, m, b)
    ensures var a := Child(t.pages[q], j);
            NodeOK(t, q) && ChildOK(t, q, j) && NodeOK(t, a) && a != q && t.pages[a].parent == q && a != t.root
  {
    assert NodeOK(t, q) && ChildOK(t, q, j) && NodeOK(t, Child(t.pages[q], j));
  }

  lemma {:induction false} SplitLeafHalves(t: BTree, q: PageId, j: nat, m: nat, b: PageId)
    requires CanSplitLeaf(t, q, j, m, b)
    ensures var t' := SplitLeaf(t, q, j, m, b);
            var a := Child(t.pages[q], j);
            InTree(t', a) && InTree(t', b) && LeafOK(t', a) && LeafOK(t', b) && t'.place[a].lo < t'.place[a].hi == t'.place[b].lo < t'.place[b].hi
  {
    SplitLeafFacts(t, q, j, m, b);
    var a := Child(t.pages[q], j);
    var leaf := t.pages[a];
    SplitRows(leaf.entries, t.rows, t.place[a].lo, t.place[a].hi, m);
    if leaf.next != 0 {
      assert NodeOK(t, leaf.next);
      SplitLeafAt(t, q, j, m, b, leaf.next);
    }
    if leaf.prev != 0 {
      assert NodeOK(t, leaf.prev);
      SplitLeafAt(t, q, j, m, b, leaf.prev);
    }
  }

  lemma {:induction false} SplitLeafKeepsParent(t: BTree, q: PageId, j: nat, m: nat, b: PageId, p: PageId)
    requires CanSplitLeaf(t, q, j, m, b)
    requires p in t.place
    ensures InTree(SplitLeaf(t, q, j, m, b), p) && IsNode(SplitLeaf(t, q, j, m, b).pages[p])
    ensures ParentOK(SplitLeaf(t, q, j, m, b), p)
  {
    SplitLeafFacts(t, q, j, m, b);
    var a := Child(t.pages[q], j);
    assert NodeOK(t, p);
    if p != q && p != a {
      SplitLeafAt(t, q, j, m, b, p);
    }
    if p != t.root {
      var i := ParentOf(t, p);
      var r := t.pages[p].parent;
      if r == q {
        PutKeepsChildren(t.pages[q], j, Separator(t.pages[a].entries[m].key, b), p);
      } else {
        SplitLeafAt(t, q, j, m, b, r);
        assert Child(SplitLeaf(t, q, j, m, b).pages[r], i) == p;
      }
    }
  }

  lemma {:induction false} SplitLeafOther(t: BTree, q: PageId, j: nat, m: nat, b: PageId, p: PageId)
    requires CanSplitLeaf(t, q, j, m, b)
    requires p in t.place && p != q && p != Child(t.pages[q], j)
    ensures NodeOK(SplitLeaf(t, q, j, m, b), p)
  {
    SplitLeafFacts(t, q, j, m, b);
    var a := Child(t.pages[q], j);
    var t' := SplitLeaf(t, q, j, m, b);
    assert NodeOK(t, p);
    SplitLeafKeepsParent(t, q, j, m, b, p);
    SplitLeafAt(t, q, j, m, b, p);
    if t.place[p].level > 0 {
      forall i | 0 <= i <= |t.pages[p].seps|
        ensures SameChild(t, t', Child(t.pages[p], i))
      {
        assert ChildOK(t, p, i);
        if Child(t.pages[p], i) != q {
          SplitLeafAt(t, q, j, m, b, Child(t.pages[p], i));
        }
      }
      UntouchedInternal(t, t', p);
    } else {
      SplitLeafChain(t, q, j, m, b, p);
    }
  }

  lemma {:induction false} SplitLeafChain(t: BTree, q: PageId, j: nat, m: nat, b: PageId, p: PageId)
    requires CanSplitLeaf(t, q, j, m, b)
    requires p in t.place && t.place[p].level == 0 && p != Child(t.pages[q], j)
    ensures var t' := SplitLeaf(t, q, j, m, b);
            InTree(t', p) && t'.pages[p].Leaf? && ChainOK(t', p)
  {
    SplitLeafFacts(t, q, j, m, b);
    var a := Child(t.pages[q], j);
    assert NodeOK(t, p);
    SplitLeafAt(t, q, j, m, b, p);
    var next, prev := t.pages[p].next, t.pages[p].prev;
    if next != 0 && next != a {
      assert NodeOK(t, next);
      SplitLeafAt(t, q, j, m, b, next);
    }
    if prev != 0 && prev != a {
      assert NodeOK(t, prev);
      SplitLeafAt(t, q, j, m, b, prev);
    }
  }

  lemma {:induction false} SplitLeafShaped(t: BTree, q: PageId, j: nat, m: nat, b: PageId)
    requires CanSplitLeaf(t, q, j, m, b)
    ensures Shaped(SplitLeaf(t, q, j, m, b))
  {
    SplitLeafFacts(t, q, j, m, b);
    var t' := SplitLeaf(t, q, j, m, b);
    forall p | p in t'.place
      ensures NodeOK(t', p)
    {
      if p == Child(t.pages[q], j) {
        SplitLeafHalves(t, q, j, m, b);
        SplitLeafKeepsParent(t, q, j, m, b, p);
      } else if p == b {
        SplitLeafHalves(t, q, j, m, b);
        PutKeepsChildren(t.pages[q], j, Separator(t.pages[Child(t.pages[q], j)].entries[m].key, b), b);
      } else if p == q {
        SplitLeafParent(t, q, j, m, b);
        SplitLeafKeepsParent(t, q, j, m, b, q);
      } else {
        SplitLeafOther(t, q, j, m, b, p);
      }
    }
  }

  /* ---------- splitting an internal node ---------- */

  /** Every child of node is told its new parent. */
  ghost function Adopt(pages: map<PageId, Page>, node: Page, parent: PageId): map<PageId, Page> {
    map p | p in pages :: if HasChild(node, p) then WithParent(pages[p], parent) else pages[p]
  }

  /** The upper part of an internal node whose m-th separator moves up. */
  function UpperPart(node: Page, m: nat, parent: PageId): (r: Page)
    requires node.Internal? && m < |node.seps|
    ensures r.Internal?
  {
    Internal(parent, node.seps[m].child, node.seps[m + 1..])
  }

  function LowerPart(node: Page, m: nat, parent: PageId): (r: Page)
    requires node.Internal? && m < |node.seps|
    ensures r.Internal?
  {
    Internal(parent, node.leftmost, node.seps[..m])
  }

  ghost predicate CanSplitInternal(t: BTree, q: PageId, j: nat, m: nat, b: PageId) {
    && Shaped(t) && b != 0 && b !in t.place
    && q in t.place && q in t.pages && t.pages[q].Internal? && j <= |t.pages[q].seps|
    && (var a := Child(t.pages[q], j);
        a in t.place && a in t.pages && t.pages[a].Internal? && m < |t.pages[a].seps|)
  }

  /** Child j of q keeps its first m separators, the m-th moves up into q, the new page b takes the rest. */
  ghost function SplitInternal(t: BTree, q: PageId, j: nat, m: nat, b: PageId): BTree
    requires CanSplitInternal(t, q, j, m, b)
  {
    var a := Child(t.pages[q], j);
    var node := t.pages[a];
    var key := node.seps[m].key;
    t.(pages := Adopt(t.pages, UpperPart(node, m, q), b)
                [a := LowerPart(node, m, q)]
                [b := UpperPart(node, m, q)]
                [q := WithSeps(t.pages[q], PutAt(t.pages[q].seps, j, Separator(key, b)))],
       place := t.place[a := t.place[a].(hi := key)][b := t.place[a].(lo := key)])
  }

  /** The two parts share out the children and the fences of the node. */
  lemma {:induction false} PartsOf(node: Page, pl: Place, m: nat, q: PageId)
    requires node.Internal? && m < |node.seps|
    ensures var lower, upper := LowerPart(node, m, q), UpperPart(node, m, q);
            var key := node.seps[m].key;
            && (forall i {:trigger Child(lower, i)} :: 0 <= i <= m ==> Child(lower, i) == Child(node, i))
            && (forall i {:trigger Child(upper, i)} :: 0 <= i < |node.seps| - m ==> Child(upper, i) == Child(node, m + 1 + i))
            && (forall i {:trigger Fence(lower.seps, pl.(hi := key), i)} :: 0 <= i <= m + 1 ==>
                  Fence(lower.seps, pl.(hi := key), i) == Fence(node.seps, pl, i))
            && (forall i {:trigger Fence(upper.seps, pl.(lo := key), i)} :: 0 <= i <= |node.seps| - m ==>
                  Fence(upper.seps, pl.(lo := key), i) == Fence(node.seps, pl, m + 1 + i))
  {
  }

  lemma {:induction false} SplitInternalParts(t: BTree, q: PageId, j: nat, m: nat, b: PageId)
    requires CanSplitInternal(t, q, j, m, b)
    ensures var a := Child(t.pages[q], j);
            var node := t.pages[a];
            && NodeOK(t, q) && ChildOK(t, q, j) && NodeOK(t, a) && a != q && node.parent == q
            && t.place[q].level == t.place[a].level + 1 && t.place[a].level > 0
            && t.place[a].lo < node.seps[m].key < t.place[a].hi
            && (forall i {:trigger Child(node, i)} :: 0 <= i <= m ==> !HasChild(UpperPart(node, m, q), Child(node, i)))
  {
    var a := Child(t.pages[q], j);
    var node := t.pages[a];
    assert NodeOK(t, q) && ChildOK(t, q, j) && NodeOK(t, a);
    assert Fence(node.seps, t.place[a], 0) < Fence(node.seps, t.place[a], m + 1)
        < Fence(node.seps, t.place[a], |node.seps| + 1);
    PartsOf(node, t.place[a], m, q);
    var upper := UpperPart(node, m, q);
    forall i | 0 <= i <= m
      ensures !HasChild(upper, Child(node, i))
    {
      forall k | 0 <= k <= |upper.seps|
        ensures Child(upper, k) != Child(node, i)
      {
        FencesApart(t, a, i, m + 1 + k);
      }
    }
  }

  /** A child of the upper part is a child of a. */
  lemma {:induction false} UpperChildren(t: BTree, q: PageId, j: nat, m: nat, b: PageId, p: PageId)
    requires CanSplitInternal(t, q, j, m, b)
    requires HasChild(UpperPart(t.pages[Child(t.pages[q], j)], m, q), p)
    ensures InTree(t, p) && IsNode(t.pages[p])
    ensures t.pages[p].parent == Child(t.pages[q], j) && p != t.root
    ensures t.place[p].level + 1 == t.place[Child(t.pages[q], j)].level
    ensures p != q && p != Child(t.pages[q], j) && p != b
  {
    SplitInternalParts(t, q, j, m, b);
    var a := Child(t.pages[q], j);
    var node := t.pages[a];
    var upper := UpperPart(node, m, q);
    PartsOf(node, t.place[a], m, q);
    var k :| 0 <= k <= |upper.seps| && Child(upper, k) == p;
    assert ChildOK(t, a, m + 1 + k);
    assert NodeOK(t, p);
  }

  /** What the split does to a page other than the two it is about. */
  lemma {:induction false} SplitInternalAt(t: BTree, q: PageId, j: nat, m: nat, b: PageId, p: PageId)
    requires CanSplitInternal(t, q, j, m, b)
    requires p in t.place && p != q && p != Child(t.pages[q], j)
    ensures var t' := SplitInternal(t, q, j, m, b);
            var upper := UpperPart(t.pages[Child(t.pages[q], j)], m, q);
            && InTree(t, p) && IsNode(t.pages[p]) && InTree(t', p) && t'.place[p] == t.place[p]
            && t'.pages[p] == (if HasChild(upper, p) then WithParent(t.pages[p], b) else t.pages[p])
  {
    assert NodeOK(t, p);
  }

  lemma {:induction false} SplitInternalHalves(t: BTree, q: PageId, j: nat, m: nat, b: PageId)
    requires CanSplitInternal(t, q, j, m, b)
    ensures var t' := SplitInternal(t, q, j, m, b);
            InTree(t', b) && InTree(t', Child(t.pages[q], j)) && InternalOK(t', b) && InternalOK(t', Child(t.pages[q], j))
  {
    SplitInternalParts(t, q, j, m, b);
    var a := Child(t.pages[q], j);
    var node := t.pages[a];
    var t' := SplitInternal(t, q, j, m, b);
    PartsOf(node, t.place[a], m, q);
    forall i | 0 <= i <= |t'.pages[a].seps|
      ensures ChildOK(t', a, i)
    {
      assert ChildOK(t, a, i);
      assert NodeOK(t, Child(node, i));
      SplitInternalAt(t, q, j, m, b, Child(node, i));
    }
    forall i | 0 <= i <= |t'.pages[b].seps|
      ensures ChildOK(t', b, i)
    {
      assert ChildOK(t, a, m + 1 + i);
      UpperChildren(t, q, j, m, b, Child(t'.pages[b], i));
      SplitInternalAt(t, q, j, m, b, Child(t'.pages[b], i));
    }
  }

  lemma {:induction false} SplitInternalChild(t: BTree, q: PageId, j: nat, m: nat, b: PageId, i: nat)
    requires CanSplitInternal(t, q, j, m, b)
    requires i <= |t.pages[q].seps| + 1
    ensures InTree(SplitInternal(t, q, j, m, b), q)
    ensures ChildOK(SplitInternal(t, q, j, m, b), q, i)
  {
    SplitInternalParts(t, q, j, m, b);
    var a := Child(t.pages[q], j);
    var x := Separator(t.pages[a].seps[m].key, b);
    PutSeparator(t.pages[q], t.place[q], j, x);
    if i != j && i != j + 1 {
      var i' := if i <= j then i else i - 1;
      assert ChildOK(t, q, i');
      FencesApart(t, q, i', j);
      var c := Child(t.pages[q], i');
      assert NodeOK(t, c);
      SplitInternalAt(t, q, j, m, b, c);
      if HasChild(UpperPart(t.pages[a], m, q), c) {
        UpperChildren(t, q, j, m, b, c);
      }
    }
  }

  lemma {:induction false} SplitInternalKeepsParent(t: BTree, q: PageId, j: nat, m: nat, b: PageId, p: PageId)
    requires CanSplitInternal(t, q, j, m, b)
    requires p in t.place
    ensures InTree(SplitInternal(t, q, j, m, b), p) && IsNode(SplitInternal(t, q, j, m, b).pages[p])
    ensures ParentOK(SplitInternal(t, q, j, m, b), p)
  {
    SplitInternalParts(t, q, j, m, b);
    var a := Child(t.pages[q], j);
    var node := t.pages[a];
    var x := Separator(node.seps[m].key, b);
    var t' := SplitInternal(t, q, j, m, b);
    assert NodeOK(t, p);
    if p == a {
      PutKeepsChildren(t.pages[q], j, x, a);
    } else if p != t.root {
      var i := ParentOf(t, p);
      var r := t.pages[p].parent;
      if HasChild(UpperPart(node, m, q), p) {
        UpperChildren(t, q, j, m, b, p);
      }
      if r == q {
        PutKeepsChildren(t.pages[q], j, x, p);
      } else if r == a {
        PartsOf(node, t.place[a], m, q);
        if i > m {
          assert Child(UpperPart(node, m, q), i - m - 1) == p;
        } else {
          assert Child(LowerPart(node, m, q), i) == p;
        }
      } else {
        SplitInternalAt(t, q, j, m, b, r);
        assert Child(t'.pages[r], i) == p;
      }
    } else if HasChild(UpperPart(node, m, q), p) {
      UpperChildren(t, q, j, m, b, p);
    }
  }

  lemma {:induction false} SplitInternalOther(t: BTree, q: PageId, j: nat, m: nat, b: PageId, p: PageId)
    requires CanSplitInternal(t, q, j, m, b)
    requires p in t.place && p != q && p != Child(t.pages[q], j)
    ensures NodeOK(SplitInternal(t, q, j, m, b), p)
  {
    SplitInternalParts(t, q, j, m, b);
    var a := Child(t.pages[q], j);
    var t' := SplitInternal(t, q, j, m, b);
    assert NodeOK(t, p);
    SplitInternalKeepsParent(t, q, j, m, b, p);
    SplitInternalAt(t, q, j, m, b, p);
    if t.place[p].level > 0 {
      forall i | 0 <= i <= |t'.pages[p].seps|
        ensures ChildOK(t', p, i)
      {
        assert ChildOK(t, p, i);
        var c := Child(t.pages[p], i);
        assert NodeOK(t, c);
        if HasChild(UpperPart(t.pages[a], m, q), c) {
          UpperChildren(t, q, j, m, b, c);
        }
        if c != q {
          SplitInternalAt(t, q, j, m, b, c);
        }
      }
    } else {
      var next, prev := t.pages[p].next, t.pages[p].prev;
      if next != 0 {
        assert NodeOK(t, next);
        SplitInternalAt(t, q, j, m, b, next);
      }
      if prev != 0 {
        assert NodeOK(t, prev);
        SplitInternalAt(t, q, j, m, b, prev);
      }
    }
  }

  lemma {:induction false} SplitInternalShaped(t: BTree, q: PageId, j: nat, m: nat, b: PageId)
    requires CanSplitInternal(t, q, j, m, b)
    ensures Shaped(SplitInternal(t, q, j, m, b))
  {
    SplitInternalParts(t, q, j, m, b);
    var a := Child(t.pages[q], j);
    var t' := SplitInternal(t, q, j, m, b);
    var x := Separator(t.pages[a].seps[m].key, b);
    forall p | p in t'.place
      ensures NodeOK(t', p)
    {
      if p == b {
        SplitInternalHalves(t, q, j, m, b);
        PutKeepsChildren(t.pages[q], j, x, b);
      } else if p == a {
        SplitInternalHalves(t, q, j, m, b);
        SplitInternalKeepsParent(t, q, j, m, b, a);
      } else if p == q {
        SplitInternalKeepsParent(t, q, j, m, b, q);
        PutFences(t.pages[q].seps, t.place[q], j, x);
        forall i | 0 <= i <= |t'.pages[q].seps|
          ensures ChildOK(t', q, i)
        {
          SplitInternalChild(t, q, j, m, b, i);
        }
      } else {
        SplitInternalOther(t, q, j, m, b, p);
      }
    }
  }
}
