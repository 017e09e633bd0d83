/** What an insert leaves half done while a split travels up: one page holds an entry too many, or has
    been cut in two and its parent does not know yet. */
module TreeOverflow {
  import opened Pages
  import opened Tree
  import opened TreeSplit
  import opened TreeEntries
  import opened TreeHeight
  import opened TreeDescent

  function Size(page: Page): nat {
    match page
    case Leaf(_, es, _, _) => |es|
    case Internal(_, _, seps) => |seps|
    case _ => 0
  }

  function MaxSize(caps: Caps, page: Page): nat {
    if page.Leaf? then caps.leafMax else caps.internalMax
  }

  /** The key that moves up when a page is cut at m. */
  function CutKey(page: Page, m: nat): nat
    requires IsNode(page) && m < Size(page)
  {
    if page.Leaf? then page.entries[m].key else page.seps[m].key
  }

  /* ---------- a split, leaf or internal ---------- */

  ghost predicate CanSplit(t: BTree, q: PageId, j: nat, m: nat, b: PageId) {
    && Shaped(t) && b != 0 && b !in t.place
    && q in t.place && q in t.pages && t.pages[q].Internal? && j <= |t.pages[q].seps|
    && (var a := Child(t.pages[q], j);
        a in t.place && a in t.pages && IsNode(t.pages[a]) && 0 < m < Size(t.pages[a]))
  }

  lemma {:induction false} SplitCase(t: BTree, q: PageId, j: nat, m: nat, b: PageId)
    requires CanSplit(t, q, j, m, b)
    ensures var a := Child(t.pages[q], j);
            && NodeOK(t, q) && ChildOK(t, q, j) && NodeOK(t, a) && a != q && a != t.root && t.pages[a].parent == q
            && (if t.pages[a].Leaf? then CanSplitLeaf(t, q, j, m, b) else CanSplitInternal(t, q, j, m, b))
  {
    assert NodeOK(t, q) && ChildOK(t, q, j) && NodeOK(t, Child(t.pages[q], j));
  }

  ghost function Split(t: BTree, q: PageId, j: nat, m: nat, b: PageId): BTree
    requires CanSplit(t, q, j, m, b)
  {
    SplitCase(t, q, j, m, b);
    if t.pages[Child(t.pages[q], j)].Leaf? then SplitLeaf(t, q, j, m, b) else SplitInternal(t, q, j, m, b)
  }

  lemma {:induction false} SplitShaped(t: BTree, q: PageId, j: nat, m: nat, b: PageId)
    requires CanSplit(t, q, j, m, b)
    ensures Shaped(Split(t, q, j, m, b))
  {
    SplitCase(t, q, j, m, b);
    if t.pages[Child(t.pages[q], j)].Leaf? {
      SplitLeafShaped(t, q, j, m, b);
    } else {
      SplitInternalShaped(t, q, j, m, b);
    }
  }

  /** The pages after page a was cut at m into a and b, before any parent is told. */
  ghost function Cut(pages: map<PageId, Page>, a: PageId, m: nat, b: PageId): map<PageId, Page>
    requires a in pages && IsNode(pages[a]) && m < Size(pages[a])
  {
    match pages[a]
    case Leaf(parent, es, next, prev) =>
      Relink(pages, next, b)[a := Leaf(parent, es[..m], b, prev)][b := Leaf(parent, es[m..], next, a)]
    case Internal(parent, _, seps) =>
      Adopt(pages, UpperPart(pages[a], m, parent), b)[a := LowerPart(pages[a], m, parent)][b := UpperPart(pages[a], m, parent)]
  }

  /** A split is a cut and a separator put into the parent. */
  lemma {:induction false} SplitIsCut(t: BTree, q: PageId, j: nat, m: nat, b: PageId)
    requires CanSplit(t, q, j, m, b)
    ensures var a := Child(t.pages[q], j);
            var x := Separator(CutKey(t.pages[a], m), b);
            var cut := Cut(t.pages, a, m, b);
            && Split(t, q, j, m, b).pages == cut[q := WithSeps(t.pages[q], PutAt(t.pages[q].seps, j, x))]
            && b in cut && IsNode(cut[b]) && cut[b].parent == q && q in cut && cut[q] == t.pages[q]
            && Split(t, q, j, m, b).root == t.root && Split(t, q, j, m, b).rows == t.rows
            && Split(t, q, j, m, b).place.Keys == t.place.Keys + {b}
  {
    SplitCase(t, q, j, m, b);
    var a := Child(t.pages[q], j);
    if t.pages[a].Leaf? {
      if t.pages[a].next != 0 {
        assert NodeOK(t, t.pages[a].next);
      }
    } else if HasChild(UpperPart(t.pages[a], m, q), q) {
      UpperChildren(t, q, j, m, b, q);
    }
  }

  /** What a split does to a page other than the parent and the page that is cut. */
  lemma {:induction false} SplitAt(t: BTree, q: PageId, j: nat, m: nat, b: PageId, p: PageId)
    requires CanSplit(t, q, j, m, b)
    requires p in t.place && p != q && p != Child(t.pages[q], j)
    ensures var t' := Split(t, q, j, m, b);
            && InTree(t, p) && IsNode(t.pages[p]) && InTree(t', p) && t'.place[p] == t.place[p]
            && (t'.pages[p].Leaf? <==> t.pages[p].Leaf?) && IsNode(t'.pages[p])
            && Size(t'.pages[p]) == Size(t.pages[p])
            && (t.pages[p].parent != Child(t.pages[q], j) ==> t'.pages[p].parent == t.pages[p].parent)
  {
    SplitCase(t, q, j, m, b);
    var a := Child(t.pages[q], j);
    if t.pages[a].Leaf? {
      SplitLeafAt(t, q, j, m, b, p);
    } else {
      SplitInternalAt(t, q, j, m, b, p);
      if HasChild(UpperPart(t.pages[a], m, q), p) {
        UpperChildren(t, q, j, m, b, p);
      }
    }
  }

  lemma {:induction false} SplitSizes(t: BTree, q: PageId, j: nat, m: nat, b: PageId)
    requires CanSplit(t, q, j, m, b)
    ensures var a := Child(t.pages[q], j);
            var t' := Split(t, q, j, m, b);
            && a in t'.pages && b in t'.pages && q in t'.pages && t'.place[q] == t.place[q]
            && t'.pages[q].Internal? && Size(t'.pages[q]) == Size(t.pages[q]) + 1
            && t'.pages[q].parent == t.pages[q].parent
            && (t'.pages[a].Leaf? <==> t.pages[a].Leaf?) && (t'.pages[b].Leaf? <==> t.pages[a].Leaf?)
            && IsNode(t'.pages[a]) && IsNode(t'.pages[b]) && Size(t'.pages[a]) == m
            && Size(t'.pages[b]) == if t.pages[a].Leaf? then Size(t.pages[a]) - m else Size(t.pages[a]) - m - 1
  {
    SplitCase(t, q, j, m, b);
  }

  /** A page one too full, cut in the middle, gives two pages within bounds, and a parent with one more. */
  lemma {:induction false} SplitFilled(caps: Caps, t: BTree, q: PageId, j: nat, m: nat, b: PageId)
    requires CapsOK(caps) && CanSplit(t, q, j, m, b)
    requires var a := Child(t.pages[q], j);
             && (forall p :: p in t.place && p != a && p != q ==> Filled(caps, t, p))
             && Size(t.pages[a]) == MaxSize(caps, t.pages[a]) + 1 && m == Size(t.pages[a]) / 2
    ensures FilledBut(caps, Split(t, q, j, m, b), q)
  {
    SplitCase(t, q, j, m, b);
    SplitSizes(t, q, j, m, b);
    var a := Child(t.pages[q], j);
    var t' := Split(t, q, j, m, b);
    SplitIsCut(t, q, j, m, b);
    forall p | p in t'.place && p != q
      ensures Filled(caps, t', p)
    {
      if p != a && p != b {
        assert Filled(caps, t, p);
        SplitAt(t, q, j, m, b, p);
      }
    }
  }

  /* ---------- pages outside the tree do not matter ---------- */

  lemma {:induction false} ShapedAgree(t: BTree, t': BTree)
    requires Shaped(t) && t'.root == t.root && t'.place == t.place && t'.rows == t.rows
    requires forall p {:trigger t.pages[p]} {:trigger t'.pages[p]} :: p in t.place && p in t.pages ==> p in t'.pages && t'.pages[p] == t.pages[p]
    ensures Shaped(t')
  {
    forall p | p in t'.place
      ensures NodeOK(t', p)
    {
      assert NodeOK(t, p);
      if p != t.root {
        var i := ParentOf(t, p);
        assert Child(t'.pages[t.pages[p].parent], i) == p;
      }
      if t.place[p].level > 0 {
        forall i | 0 <= i <= |t.pages[p].seps|
          ensures SameChild(t, t', Child(t.pages[p], i))
        {
          assert ChildOK(t, p, i);
        }
        UntouchedInternal(t, t', p);
      } else {
        assert ChainOK(t', p);
      }
    }
  }

  lemma {:induction false} FilledAgree(caps: Caps, t: BTree, t': BTree, x: PageId)
    requires FilledBut(caps, t, x) && t'.root == t.root && t'.place == t.place
    requires forall p {:trigger t.pages[p]} {:trigger t'.pages[p]} :: p in t.place && p in t.pages ==> p in t'.pages && t'.pages[p] == t.pages[p]
    ensures FilledBut(caps, t', x)
  {
    forall p | p in t'.place && p != x
      ensures Filled(caps, t', p)
    {
      assert Filled(caps, t, p);
    }
  }

  /* ---------- the state of an insert on its way up ---------- */

  /** v is the tree as it would be if page a could hold one entry too many; the pages on file
      have a already cut at m, with the rest in b. */
  ghost predicate Overflowing(caps: Caps, v: BTree, pages: map<PageId, Page>, a: PageId, m: nat, b: PageId) {
    && Shaped(v) && FilledBut(caps, v, a)
    && a in v.place && a in v.pages && IsNode(v.pages[a])
    && Size(v.pages[a]) == MaxSize(caps, v.pages[a]) + 1 && m == Size(v.pages[a]) / 2
    && b != 0 && b !in v.place
    && pages == Cut(v.pages, a, m, b)
  }

  lemma {:induction false} OverflowSplits(caps: Caps, v: BTree, pages: map<PageId, Page>, a: PageId, m: nat, b: PageId, q: PageId) returns (j: nat)
    requires CapsOK(caps) && Overflowing(caps, v, pages, a, m, b) && a != v.root && q == v.pages[a].parent
    ensures q in v.place && q in v.pages && v.pages[q].Internal? && FencesAscend(v.pages[q].seps, v.place[q])
    ensures CanSplit(v, q, j, m, b) && Child(v.pages[q], j) == a
    ensures Fence(v.pages[q].seps, v.place[q], j) < CutKey(v.pages[a], m) < Fence(v.pages[q].seps, v.place[q], j + 1)
    ensures v.place[q].lo <= CutKey(v.pages[a], m) < v.place[q].hi
    ensures q in pages && pages[q] == v.pages[q] && b in pages && IsNode(pages[b]) && pages[b].parent == q
    ensures var w := Split(v, q, j, m, b);
            var x := Separator(CutKey(v.pages[a], m), b);
            && Shaped(w) && FilledBut(caps, w, q)
            && w.pages == pages[q := WithSeps(pages[q], PutAt(pages[q].seps, j, x))]
            && w.root == v.root && w.rows == v.rows && w.place.Keys == v.place.Keys + {b}
            && q in w.pages && w.pages[q].Internal? && Size(w.pages[q]) == Size(v.pages[q]) + 1
  {
    j := ParentOf(v, a);
    assert NodeOK(v, a);
    if v.pages[a].Leaf? {
      SplitRows(v.pages[a].entries, v.rows, v.place[a].lo, v.place[a].hi, m);
    } else {
      SplitInternalParts(v, q, j, m, b);
    }
    FenceWithin(v, q, j);
    SplitShaped(v, q, j, m, b);
    SplitIsCut(v, q, j, m, b);
    SplitSizes(v, q, j, m, b);
    forall p | p in v.place && p != a && p != q
      ensures Filled(caps, v, p)
    {
    }
    SplitFilled(caps, v, q, j, m, b);
  }

  /** The stack above a split page is as it was. */
  lemma {:induction false} SplitKeepsLatched(caps: Caps, t: BTree, q: PageId, j: nat, m: nat, b: PageId, stack: seq<PageId>)
    requires CanSplit(t, q, j, m, b) && |stack| >= 2
    requires stack[|stack| - 1] == Child(t.pages[q], j) && stack[|stack| - 2] == q
    requires Latched(caps, t, stack, true) && !Safe(caps, t.pages[q], true)
    ensures Latched(caps, Split(t, q, j, m, b), stack[..|stack| - 1], true)
  {
    SplitCase(t, q, j, m, b);
    SplitSizes(t, q, j, m, b);
    var s, t' := stack[..|stack| - 1], Split(t, q, j, m, b);
    var a := Child(t.pages[q], j);
    forall i | 0 <= i < |s|
      ensures OnStack(t, stack, i) && t.place[a].level < t.place[s[i]].level
    {
      LevelsRise(caps, t, stack, i);
    }
    forall i | 0 <= i < |s|
      ensures OnStack(t', s, i) && (i > 0 ==> Link(t', s, i) && Unsafe(caps, t', s, true, i))
    {
      assert OnStack(t, stack, i);
      assert i > 0 ==> Link(t, stack, i) && Unsafe(caps, t, stack, true, i);
      if s[i] != q {
        SplitAt(t, q, j, m, b, s[i]);
      }
      if i > 0 && s[i - 1] != q {
        assert OnStack(t, stack, i - 1);
        SplitAt(t, q, j, m, b, s[i - 1]);
      }
    }
    assert OnStack(t, stack, 0);
    if s[0] != q {
      SplitAt(t, q, j, m, b, s[0]);
    }
  }

  /** Pages lower on the stack are further from the leaves. */
  lemma {:induction false} LevelsRise(caps: Caps, t: BTree, stack: seq<PageId>, i: nat)
    requires Latched(caps, t, stack, true) && i < |stack| - 1
    ensures OnStack(t, stack, i) && OnStack(t, stack, |stack| - 1)
    ensures t.place[stack[|stack| - 1]].level < t.place[stack[i]].level
    decreases |stack| - i
  {
    assert OnStack(t, stack, i) && OnStack(t, stack, |stack| - 1);
    assert Link(t, stack, i + 1);
    if i < |stack| - 2 {
      LevelsRise(caps, t, stack, i + 1);
    }
  }

  /** A cut root under a new root r is a well-formed tree. */
  lemma {:induction false} OverflowAtRoot(caps: Caps, v: BTree, pages: map<PageId, Page>, a: PageId, m: nat, b: PageId, r: PageId)
    requires CapsOK(caps) && Overflowing(caps, v, pages, a, m, b) && a == v.root
    requires r != 0 && r !in v.place && r != b
    ensures a in pages && b in pages && IsNode(pages[a]) && IsNode(pages[b])
    ensures CanSplit(GrowRoot(v, r), r, 0, m, b)
    ensures var w := Split(GrowRoot(v, r), r, 0, m, b);
            && WellFormed(caps, w) && w.root == r && w.rows == v.rows && w.place.Keys == v.place.Keys + {b, r}
            && w.pages == pages[r := Internal(0, a, [Separator(CutKey(v.pages[a], m), b)])]
                               [a := WithParent(pages[a], r)][b := WithParent(pages[b], r)]
  {
    GrowRootShaped(v, r);
    var g := GrowRoot(v, r);
    assert NodeOK(v, a) && NodeOK(g, r) && NodeOK(g, a);
    assert Child(g.pages[r], 0) == a;
    SplitShaped(g, r, 0, m, b);
    SplitIsCut(g, r, 0, m, b);
    SplitSizes(g, r, 0, m, b);
    forall p | p in g.place && p != a && p != r
      ensures Filled(caps, g, p)
    {
      assert Filled(caps, v, p);
    }
    SplitFilled(caps, g, r, 0, m, b);
    var w := Split(g, r, 0, m, b);
    assert FilledBut(caps, w, 0) by {
      forall p | p in w.place
        ensures Filled(caps, w, p)
      {
        assert p == r || Filled(caps, w, p);
      }
    }
    CutUnderRoot(v, a, m, b, r);
    assert PutAt([], 0, Separator(CutKey(v.pages[a], m), b)) == [Separator(CutKey(v.pages[a], m), b)];
  }

  lemma {:induction false} CutUnderRoot(v: BTree, a: PageId, m: nat, b: PageId, r: PageId)
    requires Shaped(v) && a == v.root && a in v.pages && IsNode(v.pages[a]) && m < Size(v.pages[a])
    requires r != 0 && r !in v.place && r != b && b !in v.place
    ensures var cut := Cut(v.pages, a, m, b);
            && a in cut && b in cut && IsNode(cut[a]) && IsNode(cut[b])
            && Cut(GrowRoot(v, r).pages, a, m, b)[r := Internal(0, a, [Separator(CutKey(v.pages[a], m), b)])]
               == cut[r := Internal(0, a, [Separator(CutKey(v.pages[a], m), b)])]
                     [a := WithParent(cut[a], r)][b := WithParent(cut[b], r)]
  {
    assert NodeOK(v, a);
    var g := GrowRoot(v, r);
    var cut := Cut(v.pages, a, m, b);
    if v.pages[a].Internal? {
      var upper, upper' := UpperPart(v.pages[a], m, 0), UpperPart(v.pages[a], m, r);
      assert forall p :: HasChild(upper, p) <==> HasChild(upper', p) by {
        forall p
          ensures HasChild(upper, p) <==> HasChild(upper', p)
        {
          assert forall i :: 0 <= i <= |upper.seps| ==> Child(upper, i) == Child(upper', i);
        }
      }
    }
  }
}
