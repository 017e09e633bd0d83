/** Joining two sibling nodes into the left one, which gives up the right page and the separator between them. */
module TreeJoin {
  import opened Pages
  import opened Tree
  import opened TreeSplit

  /* ---------- the separators of the parent ---------- */

  lemma {:induction false} DropSeparator(page: Page, pl: Place, j: nat)
    requires page.Internal? && j < |page.seps|
    ensures var after := WithSeps(page, DropAt(page.seps, j));
            && (forall i {:trigger Child(after, i)} :: 0 <= i < |page.seps| ==>
                  Child(after, i) == if i <= j then Child(page, i) else Child(page, i + 1))
            && (forall i {:trigger Fence(after.seps, pl, i)} :: 0 <= i <= |page.seps| ==>
                  Fence(after.seps, pl, i) == if i <= j then Fence(page.seps, pl, i) else Fence(page.seps, pl, i + 1))
  {
  }

  lemma {:induction false} DropKeepsChildren(page: Page, j: nat, c: PageId)
    requires page.Internal? && j < |page.seps| && HasChild(page, c) && c != Child(page, j + 1)
    ensures HasChild(WithSeps(page, DropAt(page.seps, j)), c)
  {
    DropSeparator(page, Place(0, 0, 0), j);
    var after := WithSeps(page, DropAt(page.seps, j));
    var i :| 0 <= i <= |page.seps| && Child(page, i) == c;
    assert Child(after, if i <= j then i else i - 1) == c;
  }

  lemma {:induction false} DropFences(seps: seq<Separator>, pl: Place, j: nat)
    requires j < |seps| && FencesAscend(seps, pl)
    ensures FencesAscend(DropAt(seps, j), pl)
  {
    var page := Internal(0, 0, seps);
    DropSeparator(page, pl, j);
    var after := DropAt(seps, j);
    forall i, k | 0 <= i < k <= |after| + 1
      ensures Fence(after, pl, i) < Fence(after, pl, k)
    {
      assert Fence(WithSeps(page, after).seps, pl, i) == Fence(seps, pl, if i <= j then i else i + 1);
      assert Fence(WithSeps(page, after).seps, pl, k) == Fence(seps, pl, if k <= j then k else k + 1);
    }
  }

  /* ---------- the two siblings ---------- */

  ghost predicate Siblings(t: BTree, q: PageId, j: nat) {
    Shaped(t) && q in t.place && q in t.pages && t.pages[q].Internal? && j < |t.pages[q].seps|
  }

  lemma {:induction false} SiblingFacts(t: BTree, q: PageId, j: nat)
    requires Siblings(t, q, j)
    ensures var a, b := Child(t.pages[q], j), Child(t.pages[q], j + 1);
            && NodeOK(t, q) && NodeOK(t, a) && NodeOK(t, b)
            && ChildOK(t, q, j) && ChildOK(t, q, j + 1)
            && a != b && a != q && b != q && a != t.root && b != t.root && q != 0
            && t.pages[a].parent == q && t.pages[b].parent == q
            && t.place[a].hi == t.pages[q].seps[j].key == t.place[b].lo
            && t.place[a].level == t.place[b].level
            && t.place[a].level + 1 == t.place[q].level
  {
    assert NodeOK(t, q);
    assert ChildOK(t, q, j) && ChildOK(t, q, j + 1);
    var a, b := Child(t.pages[q], j), Child(t.pages[q], j + 1);
    assert NodeOK(t, a) && NodeOK(t, b);
    FencesApart(t, q, j, j + 1);
  }

  /* ---------- joining two leaves ---------- */

  ghost function JoinLeaves(t: BTree, q: PageId, j: nat): BTree
    requires Siblings(t, q, j) && t.place[q].level == 1
  {
    SiblingFacts(t, q, j);
    var a, b := Child(t.pages[q], j), Child(t.pages[q], j + 1);
    var la, lb := t.pages[a], t.pages[b];
    t.(pages := Relink(t.pages, lb.next, a)
                [a := Leaf(q, la.entries + lb.entries, lb.next, la.prev)]
                [q := WithSeps(t.pages[q], DropAt(t.pages[q].seps, j))],
       place := (t.place - {b})[a := t.place[a].(hi := t.place[b].hi)])
  }

  lemma {:induction false} JoinRows(es: seq<LeafEntry>, fs: seq<LeafEntry>, rows: map<nat, RowRef>, lo: nat, mid: nat, hi: nat)
    requires lo < mid < hi
    requires KeysAscend(es) && HoldsRows(es, rows, lo, mid)
    requires KeysAscend(fs) && HoldsRows(fs, rows, mid, hi)
    ensures KeysAscend(es + fs) && HoldsRows(es + fs, rows, lo, hi)
  {
    forall k | k in rows && lo <= k < hi
      ensures HasKey(es + fs, k)
    {
      if k < mid {
        var i :| 0 <= i < |es| && es[i].key == k;
        assert (es + fs)[i].key == k;
      } else {
        var i :| 0 <= i < |fs| && fs[i].key == k;
        assert (es + fs)[|es| + i].key == k;
      }
    }
  }

  /** What the join does to a page other than the siblings and their parent. */
  lemma {:induction false} JoinLeavesAt(t: BTree, q: PageId, j: nat, p: PageId)
    requires Siblings(t, q, j) && t.place[q].level == 1
    requires p in t.place && p != q && p != Child(t.pages[q], j) && p != Child(t.pages[q], j + 1)
    ensures var t' := JoinLeaves(t, q, j);
            var a, b := Child(t.pages[q], j), Child(t.pages[q], j + 1);
            && InTree(t, p) && IsNode(t.pages[p]) && InTree(t', p) && t'.place[p] == t.place[p]
            && b in t.pages && t.pages[b].Leaf?
            && t'.pages[p] == (if p == t.pages[b].next then WithPrev(t.pages[p], a) else t.pages[p])
  {
    SiblingFacts(t, q, j);
    assert NodeOK(t, p);
  }

  lemma {:induction false} JoinLeavesMerged(t: BTree, q: PageId, j: nat)
    requires Siblings(t, q, j) && t.place[q].level == 1
    ensures var t' := JoinLeaves(t, q, j);
            InTree(t', Child(t.pages[q], j)) && LeafOK(t', Child(t.pages[q], j))
  {
    SiblingFacts(t, q, j);
    SiblingsLinked(t, q, j);
    var a, b := Child(t.pages[q], j), Child(t.pages[q], j + 1);
    JoinRows(t.pages[a].entries, t.pages[b].entries, t.rows, t.place[a].lo, t.place[a].hi, t.place[b].hi);
    var next, prev := t.pages[b].next, t.pages[a].prev;
    if next != 0 {
      assert NodeOK(t, next);
      JoinLeavesAt(t, q, j, next);
    }
    if prev != 0 {
      assert NodeOK(t, prev);
      JoinLeavesAt(t, q, j, prev);
    }
  }

  lemma {:induction false} JoinLeavesParent(t: BTree, q: PageId, j: nat, i: nat)
    requires Siblings(t, q, j) && t.place[q].level == 1
    requires i < |t.pages[q].seps|
    ensures InTree(JoinLeaves(t, q, j), q)
    ensures ChildOK(JoinLeaves(t, q, j), q, i)
  {
    SiblingFacts(t, q, j);
    DropSeparator(t.pages[q], t.place[q], j);
    var i' := if i <= j then i else i + 1;
    assert ChildOK(t, q, i');
    assert NodeOK(t, Child(t.pages[q], i'));
    if i != j {
      FencesApart(t, q, i', j);
      FencesApart(t, q, i', j + 1);
      JoinLeavesAt(t, q, j, Child(t.pages[q], i'));
    }
  }

  lemma {:induction false} JoinLeavesKeepsParent(t: BTree, q: PageId, j: nat, p: PageId)
    requires Siblings(t, q, j) && t.place[q].level == 1
    requires p in t.place && p != Child(t.pages[q], j + 1)
    ensures InTree(JoinLeaves(t, q, j), p) && IsNode(JoinLeaves(t, q, j).pages[p])
    ensures ParentOK(JoinLeaves(t, q, j), p)
  {
    SiblingFacts(t, q, j);
    assert NodeOK(t, p);
    if p != q && p != Child(t.pages[q], j) {
      JoinLeavesAt(t, q, j, p);
    }
    if p != t.root {
      var i := ParentOf(t, p);
      var r := t.pages[p].parent;
      if r == q {
        DropKeepsChildren(t.pages[q], j, p);
      } else {
        JoinLeavesAt(t, q, j, r);
        assert Child(JoinLeaves(t, q, j).pages[r], i) == p;
      }
    }
  }

  lemma {:induction false} JoinLeavesOther(t: BTree, q: PageId, j: nat, p: PageId)
    requires Siblings(t, q, j) && t.place[q].level == 1
    requires p in t.place && p != q && p != Child(t.pages[q], j) && p != Child(t.pages[q], j + 1)
    ensures NodeOK(JoinLeaves(t, q, j), p)
  {
    SiblingFacts(t, q, j);
    SiblingsLinked(t, q, j);
    var a, b := Child(t.pages[q], j), Child(t.pages[q], j + 1);
    var t' := JoinLeaves(t, q, j);
    assert NodeOK(t, p);
    JoinLeavesKeepsParent(t, q, j, p);
    JoinLeavesAt(t, q, j, p);
    if t.place[p].level > 0 {
      forall i | 0 <= i <= |t.pages[p].seps|
        ensures SameChild(t, t', Child(t.pages[p], i))
      {
        assert ChildOK(t, p, i);
        var c := Child(t.pages[p], i);
        assert NodeOK(t, c);
        if c != q {
          JoinLeavesAt(t, q, j, c);
        }
      }
      UntouchedInternal(t, t', p);
    } else {
      JoinLeavesChain(t, q, j, p);
    }
  }

  lemma {:induction false} JoinLeavesChain(t: BTree, q: PageId, j: nat, p: PageId)
    requires Siblings(t, q, j) && t.place[q].level == 1
    requires p in t.place && t.place[p].level == 0
    requires p != Child(t.pages[q], j) && p != Child(t.pages[q], j + 1)
    ensures var t' := JoinLeaves(t, q, j);
            InTree(t', p) && t'.pages[p].Leaf? && ChainOK(t', p)
  {
    SiblingFacts(t, q, j);
    SiblingsLinked(t, q, j);
    var a, b := Child(t.pages[q], j), Child(t.pages[q], j + 1);
    assert NodeOK(t, p);
    JoinLeavesAt(t, q, j, p);
    var next, prev := t.pages[p].next, t.pages[p].prev;
    if next != 0 {
      assert NodeOK(t, next);
      if next != a {
        JoinLeavesAt(t, q, j, next);
      }
    }
    if prev != 0 {
      assert NodeOK(t, prev);
      if prev != b {
        JoinLeavesAt(t, q, j, prev);
      }
    }
  }

  lemma {:induction false} JoinLeavesShaped(t: BTree, q: PageId, j: nat)
    requires Siblings(t, q, j) && t.place[q].level == 1
    ensures Shaped(JoinLeaves(t, q, j))
  {
    SiblingFacts(t, q, j);
    var a := Child(t.pages[q], j);
    var t' := JoinLeaves(t, q, j);
    forall p | p in t'.place
      ensures NodeOK(t', p)
    {
      JoinLeavesKeepsParent(t, q, j, p);
      if p == a {
        JoinLeavesMerged(t, q, j);
      } else if p == q {
        DropFences(t.pages[q].seps, t.place[q], j);
        forall i | 0 <= i <= |t'.pages[q].seps|
          ensures ChildOK(t', q, i)
        {
          JoinLeavesParent(t, q, j, i);
        }
      } else {
        JoinLeavesOther(t, q, j, p);
      }
    }
  }

  /* ---------- joining two internal nodes ---------- */

  /** The left node's separators, the one that came down, the right node's. */
  function Joined(left: Page, key: nat, right: Page, parent: PageId): (r: Page)
    requires left.Internal? && right.Internal?
    ensures r.Internal?
  {
    Internal(parent, left.leftmost, left.seps + [Separator(key, right.leftmost)] + right.seps)
  }

  ghost function JoinInternals(t: BTree, q: PageId, j: nat): BTree
    requires Siblings(t, q, j) && t.place[q].level > 1
  {
    SiblingFacts(t, q, j);
    var a, b := Child(t.pages[q], j), Child(t.pages[q], j + 1);
    t.(pages := Adopt(t.pages, t.pages[b], a)
                [a := Joined(t.pages[a], t.pages[q].seps[j].key, t.pages[b], q)]
                [q := WithSeps(t.pages[q], DropAt(t.pages[q].seps, j))],
       place := (t.place - {b})[a := t.place[a].(hi := t.place[b].hi)])
  }

  lemma {:induction false} JoinedParts(left: Page, key: nat, right: Page, parent: PageId, lo: nat, hi: nat)
    requires left.Internal? && right.Internal?
    ensures var both := Joined(left, key, right, parent);
            var n := |left.seps|;
            && (forall i {:trigger Child(both, i)} :: 0 <= i <= n + 1 + |right.seps| ==>
                  Child(both, i) == if i <= n then Child(left, i) else Child(right, i - n - 1))
            && (forall i {:trigger Fence(both.seps, Place(0, lo, hi), i)} :: 0 <= i <= n + 2 + |right.seps| ==>
                  Fence(both.seps, Place(0, lo, hi), i) ==
                  if i <= n then Fence(left.seps, Place(0, lo, key), i) else Fence(right.seps, Place(0, key, hi), i - n - 1))
  {
  }

  lemma {:induction false} JoinedFences(left: Page, key: nat, right: Page, parent: PageId, pl: Place)
    requires left.Internal? && right.Internal?
    requires FencesAscend(left.seps, pl.(hi := key)) && FencesAscend(right.seps, pl.(lo := key))
    ensures FencesAscend(Joined(left, key, right, parent).seps, pl)
  {
    var both, n := Joined(left, key, right, parent), |left.seps|;
    forall i, k | 0 <= i < k <= |both.seps| + 1
      ensures Fence(both.seps, pl, i) < Fence(both.seps, pl, k)
    {
      if i <= n < k {
        assert Fence(left.seps, pl.(hi := key), i) < Fence(left.seps, pl.(hi := key), n + 1) == key;
        assert key == Fence(right.seps, pl.(lo := key), 0);
        assert Fence(right.seps, pl.(lo := key), 0) <= Fence(right.seps, pl.(lo := key), k - n - 1);
      } else if k <= n {
        assert Fence(left.seps, pl.(hi := key), i) < Fence(left.seps, pl.(hi := key), k);
      } else {
        assert Fence(right.seps, pl.(lo := key), i - n - 1) < Fence(right.seps, pl.(lo := key), k - n - 1);
      }
    }
  }

  lemma {:induction false} RightChildren(t: BTree, q: PageId, j: nat, p: PageId)
    requires Siblings(t, q, j) && t.place[q].level > 1
    requires Child(t.pages[q], j + 1) in t.pages && HasChild(t.pages[Child(t.pages[q], j + 1)], p)
    ensures InTree(t, p) && IsNode(t.pages[p])
    ensures t.pages[p].parent == Child(t.pages[q], j + 1) && p != t.root
    ensures t.place[p].level + 2 == t.place[q].level
    ensures p != q && p != Child(t.pages[q], j) && p != Child(t.pages[q], j + 1)
  {
    SiblingFacts(t, q, j);
    var b := Child(t.pages[q], j + 1);
    var k :| 0 <= k <= |t.pages[b].seps| && Child(t.pages[b], k) == p;
    assert ChildOK(t, b, k);
    assert NodeOK(t, p);
  }

  lemma {:induction false} JoinInternalsAt(t: BTree, q: PageId, j: nat, p: PageId)
    requires Siblings(t, q, j) && t.place[q].level > 1
    requires p in t.place && p != q && p != Child(t.pages[q], j) && p != Child(t.pages[q], j + 1)
    ensures var t' := JoinInternals(t, q, j);
            var a, b := Child(t.pages[q], j), Child(t.pages[q], j + 1);
            && InTree(t, p) && IsNode(t.pages[p]) && InTree(t', p) && t'.place[p] == t.place[p] && b in t.pages
            && t'.pages[p] == (if HasChild(t.pages[b], p) then WithParent(t.pages[p], a) else t.pages[p])
  {
    SiblingFacts(t, q, j);
    assert NodeOK(t, p);
  }

  lemma {:induction false} JoinInternalsMerged(t: BTree, q: PageId, j: nat, i: nat)
    requires Siblings(t, q, j) && t.place[q].level > 1
    requires var a := Child(t.pages[q], j);
             var t' := JoinInternals(t, q, j);
             InTree(t', a) && t'.pages[a].Internal? && i <= |t'.pages[a].seps|
    ensures ChildOK(JoinInternals(t, q, j), Child(t.pages[q], j), i)
  {
    SiblingFacts(t, q, j);
    var a, b := Child(t.pages[q], j), Child(t.pages[q], j + 1);
    var key := t.pages[q].seps[j].key;
    var n := |t.pages[a].seps|;
    JoinedParts(t.pages[a], key, t.pages[b], q, t.place[a].lo, t.place[b].hi);
    if i <= n {
      assert ChildOK(t, a, i);
      var c := Child(t.pages[a], i);
      assert NodeOK(t, c);
      JoinInternalsAt(t, q, j, c);
      if HasChild(t.pages[b], c) {
        RightChildren(t, q, j, c);
      }
    } else {
      assert ChildOK(t, b, i - n - 1);
      var c := Child(t.pages[b], i - n - 1);
      assert HasChild(t.pages[b], c);
      RightChildren(t, q, j, c);
      JoinInternalsAt(t, q, j, c);
    }
  }

  lemma {:induction false} JoinInternalsParent(t: BTree, q: PageId, j: nat, i: nat)
    requires Siblings(t, q, j) && t.place[q].level > 1
    requires i < |t.pages[q].seps|
    ensures InTree(JoinInternals(t, q, j), q)
    ensures ChildOK(JoinInternals(t, q, j), q, i)
  {
    SiblingFacts(t, q, j);
    DropSeparator(t.pages[q], t.place[q], j);
    var i' := if i <= j then i else i + 1;
    assert ChildOK(t, q, i');
    var c := Child(t.pages[q], i');
    assert NodeOK(t, c);
    if i != j {
      FencesApart(t, q, i', j);
      FencesApart(t, q, i', j + 1);
      JoinInternalsAt(t, q, j, c);
      if HasChild(t.pages[Child(t.pages[q], j + 1)], c) {
        RightChildren(t, q, j, c);
      }
    }
  }

  lemma {:induction false} JoinInternalsKeepsParent(t: BTree, q: PageId, j: nat, p: PageId)
    requires Siblings(t, q, j) && t.place[q].level > 1
    requires p in t.place && p != Child(t.pages[q], j + 1)
    ensures InTree(JoinInternals(t, q, j), p) && IsNode(JoinInternals(t, q, j).pages[p])
    ensures ParentOK(JoinInternals(t, q, j), p)
  {
    SiblingFacts(t, q, j);
    var a, b := Child(t.pages[q], j), Child(t.pages[q], j + 1);
    var t' := JoinInternals(t, q, j);
    assert NodeOK(t, p);
    if p != q && p != a {
      JoinInternalsAt(t, q, j, p);
    }
    if HasChild(t.pages[b], p) {
      RightChildren(t, q, j, p);
    }
    if p != t.root {
      var i := ParentOf(t, p);
      var r := t.pages[p].parent;
      JoinedParts(t.pages[a], t.pages[q].seps[j].key, t.pages[b], q, 0, 0);
      if r == q {
        DropKeepsChildren(t.pages[q], j, p);
      } else if r == a {
        assert Child(t'.pages[a], i) == p;
      } else if r == b {
        assert Child(t'.pages[a], |t.pages[a].seps| + 1 + i) == p;
      } else {
        JoinInternalsAt(t, q, j, r);
        assert Child(t'.pages[r], i) == p;
      }
    }
  }

  lemma {:induction false} JoinInternalsOther(t: BTree, q: PageId, j: nat, p: PageId)
    requires Siblings(t, q, j) && t.place[q].level > 1
    requires p in t.place && p != q && p != Child(t.pages[q], j) && p != Child(t.pages[q], j + 1)
    ensures NodeOK(JoinInternals(t, q, j), p)
  {
    SiblingFacts(t, q, j);
    var b := Child(t.pages[q], j + 1);
    var t' := JoinInternals(t, q, j);
    assert NodeOK(t, p);
    JoinInternalsKeepsParent(t, q, j, p);
    JoinInternalsAt(t, q, j, p);
    if t.place[p].level > 0 {
      forall i | 0 <= i <= |t'.pages[p].seps|
        ensures ChildOK(t', p, i)
      {
        assert ChildOK(t, p, i);
        var c := Child(t.pages[p], i);
        assert NodeOK(t, c);
        if HasChild(t.pages[b], c) {
          RightChildren(t, q, j, c);
        }
        if c != q {
          JoinInternalsAt(t, q, j, c);
        }
      }
    } else {
      var next, prev := t.pages[p].next, t.pages[p].prev;
      if next != 0 {
        assert NodeOK(t, next);
        JoinInternalsAt(t, q, j, next);
      }
      if prev != 0 {
        assert NodeOK(t, prev);
        JoinInternalsAt(t, q, j, prev);
      }
    }
  }

  lemma {:induction false} JoinInternalsShaped(t: BTree, q: PageId, j: nat)
    requires Siblings(t, q, j) && t.place[q].level > 1
    ensures Shaped(JoinInternals(t, q, j))
  {
    SiblingFacts(t, q, j);
    var a, b := Child(t.pages[q], j), Child(t.pages[q], j + 1);
    var t' := JoinInternals(t, q, j);
    forall p | p in t'.place
      ensures NodeOK(t', p)
    {
      JoinInternalsKeepsParent(t, q, j, p);
      if p == a {
        JoinedFences(t.pages[a], t.pages[q].seps[j].key, t.pages[b], q, t'.place[a]);
        forall i | 0 <= i <= |t'.pages[a].seps|
          ensures ChildOK(t', a, i)
        {
          JoinInternalsMerged(t, q, j, i);
        }
      } else if p == q {
        DropFences(t.pages[q].seps, t.place[q], j);
        forall i | 0 <= i <= |t'.pages[q].seps|
          ensures ChildOK(t', q, i)
        {
          JoinInternalsParent(t, q, j, i);
        }
      } else {
        JoinInternalsOther(t, q, j, p);
      }
    }
  }
}
