/** Inserting a key: into its leaf when there is room, and otherwise by splits that travel up the
    stack of latched pages until one has room or the root is split. */
module TreeInsert {
  import opened Pages
  import opened Tree
  import opened TreeSplit
  import opened TreeEntries
  import opened TreeHeight
  import opened TreeDescent
  import opened TreeOverflow
  import opened Search
  import opened Store

  /* ---------- page-level steps ---------- */

  /** Rewrite the parent field of every child of node. */
  method AdoptChildren(db: Store, node: Page, parent: PageId)
    requires node.Internal? && forall i :: 0 <= i <= |node.seps| ==> Child(node, i) in db.pages
    modifies db`pages
    ensures db.pages == Adopt(old(db.pages), node, parent)
  {
    ghost var before := db.pages;
    assert Child(node, 0) == node.leftmost;
    db.pages := db.pages[node.leftmost := WithParent(db.pages[node.leftmost], parent)];
    var i := 0;
    while i < |node.seps|
      invariant 0 <= i <= |node.seps| && db.pages.Keys == before.Keys
      invariant forall p {:trigger db.pages[p]} :: p in before ==>
                  db.pages[p] == if exists k :: 0 <= k <= i && Child(node, k) == p
                                 then WithParent(before[p], parent) else before[p]
    {
      var c := node.seps[i].child;
      assert Child(node, i + 1) == c;
      db.pages := db.pages[c := WithParent(db.pages[c], parent)];
      i := i + 1;
    }
  }

  /** The writes of a leaf split, in the order they are made, are a cut. */
  lemma {:induction false} LeafWritesAreCut(pages: map<PageId, Page>, leaf: PageId, tmp: seq<LeafEntry>, b: PageId)
    requires leaf in pages && pages[leaf].Leaf? && |tmp| >= 2 && b in pages && pages[b].Zeroed?
    requires var next := pages[leaf].next; next != 0 ==> next in pages && pages[next].Leaf? && next != leaf
    ensures var lph, split := pages[leaf], |tmp| / 2;
            var p1 := pages[b := Leaf(lph.parent, tmp[split..], lph.next, leaf)];
            var p2 := if lph.next != 0 then p1[lph.next := WithPrev(p1[lph.next], b)] else p1;
            var p3 := p2[leaf := Leaf(lph.parent, tmp[..split], b, lph.prev)];
            p3 == Cut(pages[leaf := WithEntries(pages[leaf], tmp)], leaf, split, b) && Rewrites(pages, p3) && IsNode(p3[b])
  {
  }

  method SplitLeafPage(db: Store, leaf: PageId, tmp: seq<LeafEntry>) returns (key: nat, b: PageId)
    requires Allocated(db.pages, db.nextPage, db.freeHead, db.free) && db.nextPage < PAGE_LIMIT
    requires leaf in db.pages && db.pages[leaf].Leaf? && |tmp| >= 2
    requires var next := db.pages[leaf].next; next != 0 ==> next in db.pages && db.pages[next].Leaf? && next != leaf
    modifies db`pages, db`nextPage, db`freeHead, db`free
    ensures Allocated(db.pages, db.nextPage, db.freeHead, db.free)
    ensures db.nextPage <= old(db.nextPage) + 1
    ensures b != 0 && AllocAndRewrite(old(db.pages), b, db.pages) && key == tmp[|tmp| / 2].key
    ensures db.pages == Cut(old(db.pages)[b := Zeroed][leaf := WithEntries(old(db.pages)[leaf], tmp)], leaf, |tmp| / 2, b)
  {
    var lph := db.pages[leaf];
    var split := |tmp| / 2;
    b := db.AllocPage();
    ghost var zeroed := db.pages;
    LeafWritesAreCut(zeroed, leaf, tmp, b);
    db.pages := db.pages[b := Leaf(lph.parent, tmp[split..], lph.next, leaf)];
    if lph.next != 0 {
      db.pages := db.pages[lph.next := WithPrev(db.pages[lph.next], b)];
    }
    db.pages := db.pages[leaf := Leaf(lph.parent, tmp[..split], b, lph.prev)];
    key := tmp[split].key;
    RewritesKeep(zeroed, db.pages, db.nextPage, db.freeHead, db.free);
  }

  lemma {:induction false} InternalWritesAreCut(pages: map<PageId, Page>, q: PageId, tmp: seq<Separator>, b: PageId)
    requires q in pages && pages[q].Internal? && |tmp| >= 2 && b in pages && pages[b].Zeroed?
    requires forall i :: 0 <= i < |tmp| ==> tmp[i].child in pages && IsNode(pages[tmp[i].child]) && tmp[i].child != q
    ensures var iph, split := pages[q], |tmp| / 2;
            var node := Internal(iph.parent, tmp[split].child, tmp[split + 1..]);
            var p3 := Adopt(pages[b := node], node, b)[q := Internal(iph.parent, iph.leftmost, tmp[..split])];
            && (forall i :: 0 <= i <= |node.seps| ==> Child(node, i) in pages[b := node])
            && p3 == Cut(pages[q := WithSeps(pages[q], tmp)], q, split, b) && Rewrites(pages, p3) && IsNode(p3[b])
  {
    var iph, split := pages[q], |tmp| / 2;
    var node := Internal(iph.parent, tmp[split].child, tmp[split + 1..]);
    forall i | 0 <= i <= |node.seps|
      ensures Child(node, i) in pages && IsNode(pages[Child(node, i)]) && Child(node, i) != q
    {
      assert Child(node, i) == tmp[split + i].child;
    }
    assert UpperPart(WithSeps(iph, tmp), split, iph.parent) == node;
    assert !HasChild(node, q) && !HasChild(node, b);
  }

  method SplitInternalPage(db: Store, q: PageId, tmp: seq<Separator>) returns (key: nat, b: PageId)
    requires Allocated(db.pages, db.nextPage, db.freeHead, db.free) && db.nextPage < PAGE_LIMIT
    requires q in db.pages && db.pages[q].Internal? && |tmp| >= 2
    requires forall i :: 0 <= i < |tmp| ==> tmp[i].child in db.pages && IsNode(db.pages[tmp[i].child]) && tmp[i].child != q
    modifies db`pages, db`nextPage, db`freeHead, db`free
    ensures Allocated(db.pages, db.nextPage, db.freeHead, db.free)
    ensures db.nextPage <= old(db.nextPage) + 1
    ensures b != 0 && AllocAndRewrite(old(db.pages), b, db.pages) && key == tmp[|tmp| / 2].key
    ensures db.pages == Cut(old(db.pages)[b := Zeroed][q := WithSeps(old(db.pages)[q], tmp)], q, |tmp| / 2, b)
  {
    var iph := db.pages[q];
    var split := |tmp| / 2;
    key := tmp[split].key;
    b := db.AllocPage();
    ghost var zeroed := db.pages;
    InternalWritesAreCut(zeroed, q, tmp, b);
    var node := Internal(iph.parent, tmp[split].child, tmp[split + 1..]);
    db.pages := db.pages[b := node];
    AdoptChildren(db, node, b);
    db.pages := db.pages[q := Internal(iph.parent, iph.leftmost, tmp[..split])];
    RewritesKeep(zeroed, db.pages, db.nextPage, db.freeHead, db.free);
  }

  /** A separator and its right child go into a parent that has room. */
  method InsertSeparator(db: Store, q: PageId, key: nat, right: PageId) returns (ghost idx: nat)
    requires q in db.pages && db.pages[q].Internal? && SepsAscend(db.pages[q].seps) && right in db.pages && right != q
    modifies db`pages
    ensures IsChildSlot(old(db.pages)[q].seps, key, idx)
    ensures db.pages == old(db.pages)[q := WithSeps(old(db.pages)[q], PutAt(old(db.pages)[q].seps, idx, Separator(key, right)))]
                                     [right := WithParent(old(db.pages)[right], q)]
  {
    var iph := db.pages[q];
    var i := InternalFind(iph.seps, key);
    var seps := ShiftIn(iph.seps, i, Separator(key, right));
    idx := i;
    db.pages := db.pages[q := Internal(iph.parent, iph.leftmost, seps)];
    db.pages := db.pages[right := WithParent(db.pages[right], q)];
  }

  /* ---------- the way up ---------- */

  /** The file between two steps of an insert: v is the tree with the page on top of the stack one too
      full, and the pages on file have it cut at m, with the rest in b. */
  ghost predicate Rising(caps: Caps, f: File, v: BTree, stack: seq<PageId>, m: nat, key: nat, b: PageId) {
    && CapsOK(caps) && AllocatedFile(f) && NoStrayPage(f, b)
    && 1 <= |stack| && f.nextPage + |stack| <= PAGE_LIMIT
    && v.root == f.root && v.rows == f.rows && v.place == f.place
    && Latched(caps, v, stack, true)
    && Overflowing(caps, v, f.pages, stack[|stack| - 1], m, b)
    && key == CutKey(v.pages[stack[|stack| - 1]], m)
  }

  lemma {:induction false} LatchedAgree(caps: Caps, t: BTree, t': BTree, stack: seq<PageId>)
    requires Latched(caps, t, stack, true) && t'.root == t.root && t'.place == t.place
    requires forall p {:trigger t.pages[p]} {:trigger t'.pages[p]} :: p in t.place && p in t.pages ==> p in t'.pages && t'.pages[p] == t.pages[p]
    ensures Latched(caps, t', stack, true)
  {
    forall i | 0 <= i < |stack|
      ensures OnStack(t', stack, i)
    {
      assert OnStack(t, stack, i);
    }
    forall i | 1 <= i < |stack|
      ensures Link(t', stack, i) && Unsafe(caps, t', stack, true, i)
    {
      assert OnStack(t, stack, i) && OnStack(t, stack, i - 1) && Link(t, stack, i) && Unsafe(caps, t, stack, true, i);
    }
    assert OnStack(t, stack, 0);
  }

  /** The parent is not on the stack only when the page is the root. */
  lemma {:induction false} TopOfStack(caps: Caps, v: BTree, stack: seq<PageId>)
    requires Latched(caps, v, stack, true)
    requires stack[|stack| - 1] in v.pages && Size(v.pages[stack[|stack| - 1]]) > MaxSize(caps, v.pages[stack[|stack| - 1]])
    ensures if |stack| == 1 then stack[0] == v.root
            else stack[|stack| - 1] != v.root && v.pages[stack[|stack| - 1]].parent == stack[|stack| - 2]
  {
    assert OnStack(v, stack, |stack| - 1);
    if |stack| > 1 {
      assert Link(v, stack, |stack| - 1);
    }
  }

  lemma {:induction false} WholeAgain(caps: Caps, w: BTree, q: PageId)
    requires Shaped(w) && FilledBut(caps, w, q) && (q in w.place ==> Filled(caps, w, q))
    ensures WellFormed(caps, w)
  {
    forall p | p in w.place && p != 0
      ensures Filled(caps, w, p)
    {
      assert p == q || Filled(caps, w, p);
    }
  }

  /** The parent q of the cut page, and the tree w once q has taken the separator, full or not. */
  lemma {:induction false} AtParent(caps: Caps, f: File, v: BTree, stack: seq<PageId>, m: nat, key: nat, b: PageId) returns (j: nat, w: BTree)
    requires Rising(caps, f, v, stack, m, key, b) && |stack| >= 2
    ensures var q := stack[|stack| - 2];
            && q in f.pages && f.pages[q].Internal? && j <= |f.pages[q].seps| <= caps.internalMax && q in f.place
            && SepsAscend(f.pages[q].seps)
            && (forall idx :: IsChildSlot(f.pages[q].seps, key, idx) ==> idx == j)
            && b in f.pages && IsNode(f.pages[b]) && b != q && WithParent(f.pages[b], q) == f.pages[b]
            && SizeOK(caps, f.pages[q], q == f.root)
            && AtParentTree(caps, f, stack, key, b, j, w)
    ensures |f.pages[stack[|stack| - 2]].seps| >= caps.internalMax ==> Latched(caps, w, stack[..|stack| - 1], true)
  {
    var q, a := stack[|stack| - 2], stack[|stack| - 1];
    TopOfStack(caps, v, stack);
    j := OverflowSplits(caps, v, f.pages, a, m, b, q);
    w := Split(v, q, j, m, b);
    FencesGiveSeps(v.pages[q].seps, v.place[q]);
    forall idx | IsChildSlot(f.pages[q].seps, key, idx)
      ensures idx == j
    {
      ChildSlot(v.pages[q].seps, v.place[q], key, idx);
    }
    assert q != a by { assert Link(v, stack, |stack| - 1); }
    assert Filled(caps, v, q);
    if |f.pages[q].seps| >= caps.internalMax {
      SplitKeepsLatched(caps, v, q, j, m, b, stack);
    }
  }

  lemma {:induction false} ParentOnFile(caps: Caps, f: File, v: BTree, stack: seq<PageId>, m: nat, key: nat, b: PageId)
    requires Rising(caps, f, v, stack, m, key, b) && |stack| >= 2
    ensures var q := stack[|stack| - 2]; q in f.pages && f.pages[q].Internal?
  {
    var _, _ := AtParent(caps, f, v, stack, m, key, b);
  }

  /** The file f with the separator for b put into q is the tree w. */
  ghost predicate AtParentTree(caps: Caps, f: File, stack: seq<PageId>, key: nat, b: PageId, j: nat, w: BTree) {
    && |stack| >= 2
    && (var q := stack[|stack| - 2];
        && q in f.pages && f.pages[q].Internal? && j <= |f.pages[q].seps| && q in f.place
        && Shaped(w) && FilledBut(caps, w, q)
        && w.pages == f.pages[q := WithSeps(f.pages[q], PutAt(f.pages[q].seps, j, Separator(key, b)))]
        && w.root == f.root && w.rows == f.rows && w.place.Keys == f.place.Keys + {b})
  }

  lemma {:induction false} FinishedInParent(caps: Caps, f: File, stack: seq<PageId>, key: nat, b: PageId, j: nat, w: BTree)
    requires AtParentTree(caps, f, stack, key, b, j, w) && CapsOK(caps) && AllocatedFile(f) && NoStrayPage(f, b)
    requires var q := stack[|stack| - 2];
             && |f.pages[q].seps| < caps.internalMax && SizeOK(caps, f.pages[q], q == f.root)
             && b in f.pages && IsNode(f.pages[b]) && WithParent(f.pages[b], q) == f.pages[b] && b != q
    ensures var q := stack[|stack| - 2];
            var f' := f.(pages := f.pages[q := WithSeps(f.pages[q], PutAt(f.pages[q].seps, j, Separator(key, b)))]
                                         [b := WithParent(f.pages[b], q)], place := w.place);
            FileOK(caps, f') && HeapKept(f.pages, f'.pages) && f'.pages == w.pages
  {
    var q := stack[|stack| - 2];
    assert w.pages == f.pages[q := WithSeps(f.pages[q], PutAt(f.pages[q].seps, j, Separator(key, b)))][b := WithParent(f.pages[b], q)];
    RewritesKeep(f.pages, w.pages, f.nextPage, f.freeHead, f.free);
    RewritesKeepStray(f, b, w.pages, w.place);
    WholeAgain(caps, w, q);
    assert IndexOf(f.(pages := w.pages, place := w.place)) == w;
  }

  /** The parent has room: the separator goes in and the tree is whole again. */
  method FinishInParent(db: Store, key: nat, b: PageId, stack: seq<PageId>, ghost v: BTree, ghost m: nat)
    requires Rising(db.caps, db.Now(), v, stack, m, key, b) && |stack| >= 2
    requires var q := stack[|stack| - 2]; q in db.pages && db.pages[q].Internal? && |db.pages[q].seps| < db.caps.internalMax
    modifies db`pages, db`place
    ensures db.Valid() && HeapKept(old(db.pages), db.pages)
  {
    ghost var j, w := AtParent(db.caps, db.Now(), v, stack, m, key, b);
    FinishedInParent(db.caps, db.Now(), stack, key, b, j, w);
    var q := stack[|stack| - 2];
    ghost var idx := InsertSeparator(db, q, key, b);
    assert idx == j;
    db.place := w.place;
  }

  /** The children of an internal page are tree pages, and none is the page itself. */
  lemma {:induction false} ParentChildren(w: BTree, q: PageId)
    requires Shaped(w) && q in w.place && q in w.pages && w.pages[q].Internal?
    ensures forall i :: 0 <= i < |w.pages[q].seps| ==>
              var c := w.pages[q].seps[i].child; c in w.pages && IsNode(w.pages[c]) && c != q
  {
    assert NodeOK(w, q);
    forall i | 0 <= i < |w.pages[q].seps|
      ensures var c := w.pages[q].seps[i].child; c in w.pages && IsNode(w.pages[c]) && c != q
    {
      assert ChildOK(w, q, i + 1);
      assert Child(w.pages[q], i + 1) == w.pages[q].seps[i].child;
    }
  }

  /** A blank page outside the tree changes nothing about it. */
  lemma {:induction false} BlankPage(caps: Caps, w: BTree, q: PageId, stack: seq<PageId>, b: PageId) returns (v: BTree)
    requires Shaped(w) && FilledBut(caps, w, q) && Latched(caps, w, stack, true)
    requires b in w.pages ==> !IsNode(w.pages[b])
    ensures v.pages == w.pages[b := Zeroed] && v.root == w.root && v.rows == w.rows && v.place == w.place
    ensures b !in w.place && Shaped(v) && FilledBut(caps, v, q) && Latched(caps, v, stack, true)
  {
    v := w.(pages := w.pages[b := Zeroed]);
    assert b in w.place ==> NodeOK(w, b);
    ShapedAgree(w, v);
    FilledAgree(caps, w, v, q);
    LatchedAgree(caps, w, v, stack);
  }

  lemma {:induction false} BlankFirst(before: map<PageId, Page>, after: map<PageId, Page>, q: PageId, b: PageId)
    requires q in after && after == before[q := after[q]] && q != b
    ensures before[b := Zeroed][q := after[q]] == after[b := Zeroed]
  {
  }

  /** The state after the parent was cut in turn. */
  lemma {:induction false} ParentCut(caps: Caps, f: File, stack: seq<PageId>, key: nat, b: PageId,
                  j: nat, w: BTree, f': File, key': nat, b': PageId, m': nat, s': seq<PageId>) returns (v': BTree)
    requires AtParentTree(caps, f, stack, key, b, j, w) && CapsOK(caps) && AllocatedFile(f) && NoStrayPage(f, b)
    requires f.nextPage + |stack| <= PAGE_LIMIT && s' == stack[..|stack| - 1] && Latched(caps, w, s', true)
    requires m' == (caps.internalMax + 1) / 2
    requires var q := stack[|stack| - 2];
             && |f.pages[q].seps| == caps.internalMax
             && b' != 0 && AllocAndRewrite(f.pages, b', f'.pages)
             && var tmp := PutAt(f.pages[q].seps, j, Separator(key, b));
             && f'.pages == Cut(f.pages[b' := Zeroed][q := WithSeps(f.pages[q], tmp)], q, |tmp| / 2, b')
             && key' == tmp[|tmp| / 2].key
    requires Allocated(f'.pages, f'.nextPage, f'.freeHead, f'.free) && f'.nextPage <= f.nextPage + 1
    requires f'.root == f.root && f'.rows == f.rows && f'.place == w.place
    ensures Rising(caps, f', v', s', m', key', b')
    ensures HeapKept(f.pages, f'.pages)
  {
    var q := stack[|stack| - 2];
    v' := BlankPage(caps, w, q, s', b');
    AllocAndRewriteKeeps(f, b, b', f'.pages, w.place);
    assert OnStack(w, s', |stack| - 2);
    BlankFirst(f.pages, w.pages, q, b');
  }

  method SeparatorsWith(seps: seq<Separator>, key: nat, b: PageId) returns (ins: nat, tmp: seq<Separator>)
    requires SepsAscend(seps)
    ensures IsChildSlot(seps, key, ins) && tmp == PutAt(seps, ins, Separator(key, b))
  {
    ins := InternalFind(seps, key);
    tmp := seps[..ins] + [Separator(key, b)] + seps[ins..];
  }

  /** The writes of one split on the way up: b is told its parent, the parent's separators and the new one
      are merged, and the parent is cut. */
  method WriteParentSplit(db: Store, q: PageId, key: nat, b: PageId, ghost tmp: seq<Separator>) returns (key': nat, b': PageId)
    requires Allocated(db.pages, db.nextPage, db.freeHead, db.free) && db.nextPage < PAGE_LIMIT
    requires q in db.pages && db.pages[q].Internal? && SepsAscend(db.pages[q].seps) && |tmp| >= 2
    requires forall idx :: IsChildSlot(db.pages[q].seps, key, idx) ==> tmp == PutAt(db.pages[q].seps, idx, Separator(key, b))
    requires b in db.pages && WithParent(db.pages[b], q) == db.pages[b]
    requires forall i :: 0 <= i < |tmp| ==> tmp[i].child in db.pages && IsNode(db.pages[tmp[i].child]) && tmp[i].child != q
    modifies db`pages, db`nextPage, db`freeHead, db`free
    ensures Allocated(db.pages, db.nextPage, db.freeHead, db.free)
    ensures db.nextPage <= old(db.nextPage) + 1
    ensures b' != 0 && AllocAndRewrite(old(db.pages), b', db.pages) && key' == tmp[|tmp| / 2].key
    ensures db.pages == Cut(old(db.pages)[b' := Zeroed][q := WithSeps(old(db.pages)[q], tmp)], q, |tmp| / 2, b')
  {
    db.pages := db.pages[b := WithParent(db.pages[b], q)];
    assert db.pages == old(db.pages);
    var ins, merged := SeparatorsWith(db.pages[q].seps, key, b);
    assert merged == tmp;
    key', b' := SplitInternalPage(db, q, merged);
  }

  /** The parent is full: it takes the separator on paper, is cut in two, and the split goes on from there. */
  method SplitParent(db: Store, key: nat, b: PageId, stack: seq<PageId>, ghost v: BTree, ghost m: nat)
    returns (key': nat, b': PageId, ghost v': BTree, ghost m': nat, ghost s': seq<PageId>)
    requires Rising(db.caps, db.Now(), v, stack, m, key, b) && |stack| >= 2
    requires var q := stack[|stack| - 2]; q in db.pages && db.pages[q].Internal? && |db.pages[q].seps| >= db.caps.internalMax
    modifies db`pages, db`nextPage, db`freeHead, db`free, db`place
    ensures s' == stack[..|stack| - 1] && Rising(db.caps, db.Now(), v', s', m', key', b')
    ensures HeapKept(old(db.pages), db.pages)
  {
    s' := stack[..|stack| - 1];
    var q := stack[|stack| - 2];
    ghost var f := db.Now();
    ghost var j, w := AtParent(db.caps, f, v, stack, m, key, b);
    ghost var tmp := PutAt(f.pages[q].seps, j, Separator(key, b));
    TmpChildren(f, w, q, tmp);
    key', b' := WriteParentSplit(db, q, key, b, tmp);
    db.place := w.place;
    m' := (db.caps.internalMax + 1) / 2;
    v' := ParentCut(db.caps, f, stack, key, b, j, w, db.Now(), key', b', m', s');
  }

  lemma {:induction false} TmpChildren(f: File, w: BTree, q: PageId, tmp: seq<Separator>)
    requires Shaped(w) && q in w.place && q in f.pages && f.pages[q].Internal?
    requires w.pages == f.pages[q := WithSeps(f.pages[q], tmp)]
    ensures forall i :: 0 <= i < |tmp| ==> tmp[i].child in f.pages && IsNode(f.pages[tmp[i].child]) && tmp[i].child != q
  {
    ParentChildren(w, q);
    forall i | 0 <= i < |tmp|
      ensures tmp[i].child in f.pages && IsNode(f.pages[tmp[i].child]) && tmp[i].child != q
    {
      var c := w.pages[q].seps[i].child;
      assert c in w.pages && IsNode(w.pages[c]) && c != q;
    }
  }

  /** The tree w that the cut root a and its other half b form under a new root r. */
  lemma {:induction false} UnderNewRoot(caps: Caps, f: File, v: BTree, a: PageId, m: nat, key: nat, b: PageId, r: PageId) returns (w: BTree)
    requires Rising(caps, f, v, [a], m, key, b)
    requires r != 0 && (r in f.pages ==> f.pages[r].FreePage?)
    ensures a in f.pages && b in f.pages && a != b && a != r && b != r
    ensures IsNode(f.pages[a]) && IsNode(f.pages[b])
    ensures WellFormed(caps, w) && w.root == r && w.rows == f.rows && w.place.Keys == f.place.Keys + {b, r}
    ensures w.pages == f.pages[r := Internal(0, a, [Separator(key, b)])]
                              [a := WithParent(f.pages[a], r)][b := WithParent(f.pages[b], r)]
  {
    TopOfStack(caps, v, [a]);
    if r in v.place {
      assert NodeOK(v, r);
      CutKeepsNodes(v.pages, a, m, b, r);
    }
    CutKeepsNodes(v.pages, a, m, b, a);
    OverflowAtRoot(caps, v, f.pages, a, m, b, r);
    w := Split(GrowRoot(v, r), r, 0, m, b);
  }

  lemma {:induction false} CutKeepsNodes(pages: map<PageId, Page>, a: PageId, m: nat, b: PageId, p: PageId)
    requires a in pages && IsNode(pages[a]) && m < Size(pages[a])
    requires p in pages && IsNode(pages[p])
    ensures p in Cut(pages, a, m, b) && IsNode(Cut(pages, a, m, b)[p])
    ensures b in Cut(pages, a, m, b) && IsNode(Cut(pages, a, m, b)[b])
  {
  }

  lemma {:induction false} NewRootDone(caps: Caps, f: File, a: PageId, key: nat, b: PageId, r: PageId, w: BTree, f': File)
    requires CapsOK(caps) && NoStrayPage(f, b) && WellFormed(caps, w)
    requires r in f.pages ==> f.pages[r].FreePage?
    requires Allocated(f.pages[r := Zeroed], f'.nextPage, f'.freeHead, f'.free) && f'.nextPage <= PAGE_LIMIT
    requires a in f.pages && b in f.pages && a != b && a != r && b != r && IsNode(f.pages[a]) && IsNode(f.pages[b])
    requires f'.pages == f.pages[r := Internal(0, a, [Separator(key, b)])][a := WithParent(f.pages[a], r)][b := WithParent(f.pages[b], r)]
    requires w.root == r && w.rows == f.rows && w.place.Keys == f.place.Keys + {b, r} && w.pages == f'.pages
    requires f'.root == r && f'.rows == f.rows && f'.place == w.place
    ensures FileOK(caps, f') && HeapKept(f.pages, f'.pages)
  {
    assert IndexOf(f') == w;
    RewritesKeep(f.pages[r := Zeroed], f'.pages, f'.nextPage, f'.freeHead, f'.free);
    AllocAndRewriteKeeps(f, b, r, f'.pages, w.place);
  }

  method WriteNewRoot(db: Store, r: PageId, oldRoot: PageId, key: nat, b: PageId)
    requires r in db.pages && oldRoot in db.pages && b in db.pages && r != oldRoot && r != b && oldRoot != b
    modifies db`pages, db`root
    ensures db.pages == old(db.pages)[r := Internal(0, oldRoot, [Separator(key, b)])]
                                     [oldRoot := WithParent(old(db.pages)[oldRoot], r)][b := WithParent(old(db.pages)[b], r)]
    ensures db.root == r
  {
    db.pages := db.pages[r := Internal(0, oldRoot, [Separator(key, b)])];
    db.pages := db.pages[oldRoot := WithParent(db.pages[oldRoot], r)];
    db.pages := db.pages[b := WithParent(db.pages[b], r)];
    db.root := r;
  }

  /** The root was cut: a new root gets the two halves. */
  method NewRoot(db: Store, key: nat, b: PageId, oldRoot: PageId, ghost v: BTree, ghost m: nat)
    requires Rising(db.caps, db.Now(), v, [oldRoot], m, key, b)
    modifies db`pages, db`nextPage, db`freeHead, db`free, db`place, db`root
    ensures db.Valid() && HeapKept(old(db.pages), db.pages)
  {
    ghost var f := db.Now();
    var r := db.AllocPage();
    ghost var w := UnderNewRoot(db.caps, f, v, oldRoot, m, key, b, r);
    WriteNewRoot(db, r, oldRoot, key, b);
    assert db.pages == w.pages;
    db.place := w.place;
    NewRootDone(db.caps, f, oldRoot, key, b, r, w, db.Now());
  }

  /** Splits travel up the stack. The stack reaches as far as they can go: it ends at the root or at a
      page with room, so no page below its bottom is ever needed. */
  method PropagateInsert(db: Store, key: nat, right: PageId, stack: seq<PageId>, ghost v: BTree, ghost m: nat)
    requires Rising(db.caps, db.Now(), v, stack, m, key, right)
    modifies db`pages, db`nextPage, db`freeHead, db`free, db`place, db`root
    ensures db.Valid() && HeapKept(old(db.pages), db.pages)
  {
    var level := |stack| - 1;
    var curKey, curRight := key, right;
    ghost var w, n := v, m;
    assert stack[..level + 1] == stack;
    while level > 0
      invariant 0 <= level < |stack|
      invariant Rising(db.caps, db.Now(), w, stack[..level + 1], n, curKey, curRight)
      invariant HeapKept(old(db.pages), db.pages)
    {
      var s := stack[..level + 1];
      var parent := stack[level - 1];
      assert s[|s| - 2] == parent;
      ParentOnFile(db.caps, db.Now(), w, s, n, curKey, curRight);
      if |db.pages[parent].seps| < db.caps.internalMax {
        FinishInParent(db, curKey, curRight, s, w, n);
        return;
      }
      ghost var s';
      curKey, curRight, w, n, s' := SplitParent(db, curKey, curRight, s, w, n);
      assert s[..|s| - 1] == stack[..level];
      level := level - 1;
    }
    assert stack[..1] == [stack[0]];
    NewRoot(db, curKey, curRight, stack[0], w, n);
  }

  /* ---------- insert ---------- */

  /** A new key is added to what the tree maps; a key that is there already is refused and nothing
      changes. Either way the result is a well-formed tree, the heap pages are untouched and no page
      is lost. The only demand is that page numbers do not run out. */
  method Insert(db: Store, key: nat, ref: RowRef) returns (rc: int)
    requires db.Valid() && key < KEY_LIMIT && db.nextPage + MAX_TREE_DEPTH + 1 <= PAGE_LIMIT
    modifies db`pages, db`nextPage, db`freeHead, db`free, db`place, db`root, db`rows
    ensures db.Valid() && HeapKept(old(db.pages), db.pages)
    ensures rc == if key in old(db.rows) then -1 else 0
    ensures key in old(db.rows) ==> db.Now() == old(db.Now())
    ensures db.rows == if key in old(db.rows) then old(db.rows) else old(db.rows)[key := ref]
  {
    ghost var t := db.Index();
    var leaf, stack := FindLeafLatched(db, key, true);
    assert NodeOK(t, leaf);
    var lph := db.pages[leaf];
    var idx := LeafFind(lph.entries, key);
    FoundAtSlot(t, key, leaf, idx);
    if idx < |lph.entries| && lph.entries[idx].key == key {
      return -1;
    }
    rc := 0;
    if |lph.entries| < db.caps.leafMax {
      InsertInLeaf(db, leaf, key, ref);
    } else {
      InsertAndSplit(db, leaf, stack, idx, key, ref);
    }
  }

  /** The entry goes to its place among the entries of the leaf. */
  method LeafInsertEntry(db: Store, leaf: PageId, key: nat, ref: RowRef) returns (ghost idx: nat)
    requires leaf in db.pages && db.pages[leaf].Leaf? && KeysAscend(db.pages[leaf].entries)
    modifies db`pages
    ensures IsLeafSlot(old(db.pages)[leaf].entries, key, idx)
    ensures var lph := old(db.pages)[leaf];
            db.pages == old(db.pages)[leaf := WithEntries(lph, PutAt(lph.entries, idx, LeafEntry(key, ref)))]
  {
    var lph := db.pages[leaf];
    var i := LeafFind(lph.entries, key);
    var entries := ShiftIn(lph.entries, i, LeafEntry(key, ref));
    idx := i;
    db.pages := db.pages[leaf := Leaf(lph.parent, entries, lph.next, lph.prev)];
  }

  lemma {:induction false} RoomInLeaf(caps: Caps, f: File, leaf: PageId, idx: nat, key: nat, ref: RowRef)
    requires FileOK(caps, f) && LeafFor(IndexOf(f), key, leaf) && key !in f.rows
    requires |f.pages[leaf].entries| < caps.leafMax && IsLeafSlot(f.pages[leaf].entries, key, idx)
    ensures var t' := PutEntry(IndexOf(f), leaf, idx, key, ref);
            FileOK(caps, f.(pages := t'.pages, rows := t'.rows)) && HeapKept(f.pages, t'.pages)
  {
    var t := IndexOf(f);
    var t' := PutEntry(t, leaf, idx, key, ref);
    PutEntryShaped(t, leaf, idx, key, ref);
    RewritesKeep(t.pages, t'.pages, f.nextPage, f.freeHead, f.free);
    forall p | p in t'.place && p != 0
      ensures Filled(caps, t', p)
    {
      assert Filled(caps, t, p);
    }
  }

  method InsertInLeaf(db: Store, leaf: PageId, key: nat, ref: RowRef)
    requires db.Valid() && LeafFor(db.Index(), key, leaf) && key !in db.rows
    requires |db.pages[leaf].entries| < db.caps.leafMax
    modifies db`pages, db`rows
    ensures db.Valid() && HeapKept(old(db.pages), db.pages)
    ensures db.rows == old(db.rows)[key := ref]
  {
    ghost var f := db.Now();
    assert NodeOK(IndexOf(f), leaf);
    ghost var idx := LeafInsertEntry(db, leaf, key, ref);
    RoomInLeaf(db.caps, f, leaf, idx, key, ref);
    db.rows := db.rows[key := ref];
  }

  method InsertAndSplit(db: Store, leaf: PageId, stack: seq<PageId>, ins: nat, key: nat, ref: RowRef)
    requires db.Valid() && key < KEY_LIMIT && db.nextPage + MAX_TREE_DEPTH + 1 <= PAGE_LIMIT
    requires LeafFor(db.Index(), key, leaf) && key !in db.rows && IsLeafSlot(db.pages[leaf].entries, key, ins)
    requires |db.pages[leaf].entries| >= db.caps.leafMax
    requires Latched(db.caps, db.Index(), stack, true) && stack[|stack| - 1] == leaf && |stack| <= MAX_TREE_DEPTH
    modifies db`pages, db`nextPage, db`freeHead, db`free, db`place, db`root, db`rows
    ensures db.Valid() && HeapKept(old(db.pages), db.pages)
    ensures db.rows == old(db.rows)[key := ref]
  {
    ghost var f := db.Now();
    var lph := db.pages[leaf];
    var tmp := lph.entries[..ins] + [LeafEntry(key, ref)] + lph.entries[ins..];
    FullLeaf(db.caps, IndexOf(f), leaf);
    var promote, b := SplitLeafPage(db, leaf, tmp);
    db.rows := db.rows[key := ref];
    ghost var v := LeafCut(db.caps, f, leaf, ins, key, ref, b, stack, db.Now(), promote);
    PropagateInsert(db, promote, b, stack, v, |tmp| / 2);
  }

  lemma {:induction false} FullLeaf(caps: Caps, t: BTree, leaf: PageId)
    requires WellFormed(caps, t) && leaf in t.place && leaf in t.pages && t.pages[leaf].Leaf?
    ensures |t.pages[leaf].entries| <= caps.leafMax
    ensures var next := t.pages[leaf].next; next != 0 ==> next in t.pages && t.pages[next].Leaf? && next != leaf
  {
    assert NodeOK(t, leaf) && (leaf == 0 || Filled(caps, t, leaf));
    assert t.pages[leaf].next != 0 ==> NodeOK(t, t.pages[leaf].next);
  }

  lemma {:induction false} LeafCut(caps: Caps, f: File, leaf: PageId, ins: nat, key: nat, ref: RowRef, b: PageId,
                stack: seq<PageId>, f': File, promote: nat) returns (v: BTree)
    requires FileOK(caps, f) && f.nextPage + MAX_TREE_DEPTH + 1 <= PAGE_LIMIT
    requires LeafFor(IndexOf(f), key, leaf) && key !in f.rows && IsLeafSlot(f.pages[leaf].entries, key, ins)
    requires |f.pages[leaf].entries| == caps.leafMax
    requires Latched(caps, IndexOf(f), stack, true) && stack[|stack| - 1] == leaf && |stack| <= MAX_TREE_DEPTH
    requires b != 0 && AllocAndRewrite(f.pages, b, f'.pages)
    requires var tmp := PutAt(f.pages[leaf].entries, ins, LeafEntry(key, ref));
             && f'.pages == Cut(f.pages[b := Zeroed][leaf := WithEntries(f.pages[leaf], tmp)], leaf, |tmp| / 2, b)
             && promote == tmp[|tmp| / 2].key
    requires Allocated(f'.pages, f'.nextPage, f'.freeHead, f'.free) && f'.nextPage <= f.nextPage + 1
    requires f'.root == f.root && f'.rows == f.rows[key := ref] && f'.place == f.place
    ensures Rising(caps, f', v, stack, (caps.leafMax + 1) / 2, promote, b)
    ensures HeapKept(f.pages, f'.pages)
  {
    v := StartRising(caps, IndexOf(f), leaf, ins, key, ref, b, stack);
    AllocAndRewriteKeeps(f, 0, b, f'.pages, f.place);
  }

  lemma {:induction false} StartRising(caps: Caps, t: BTree, leaf: PageId, ins: nat, key: nat, ref: RowRef, b: PageId, stack: seq<PageId>)
    returns (v': BTree)
    requires CapsOK(caps) && WellFormed(caps, t) && LeafFor(t, key, leaf) && key !in t.rows
    requires IsLeafSlot(t.pages[leaf].entries, key, ins) && |t.pages[leaf].entries| == caps.leafMax
    requires b in t.pages ==> !IsNode(t.pages[b])
    requires Latched(caps, t, stack, true) && stack[|stack| - 1] == leaf
    ensures b !in t.place && b != leaf
    ensures v'.root == t.root && v'.place == t.place && v'.rows == t.rows[key := ref]
    ensures v'.pages == t.pages[b := Zeroed][leaf := WithEntries(t.pages[leaf], PutAt(t.pages[leaf].entries, ins, LeafEntry(key, ref)))]
    ensures Shaped(v') && FilledBut(caps, v', leaf) && Latched(caps, v', stack, true)
    ensures leaf in v'.pages && v'.pages[leaf].Leaf? && Size(v'.pages[leaf]) == caps.leafMax + 1
  {
    var v := PutEntry(t, leaf, ins, key, ref);
    v' := v.(pages := v.pages[b := Zeroed]);
    assert b in t.place ==> NodeOK(t, b);
    PutEntryShaped(t, leaf, ins, key, ref);
    ShapedAgree(v, v');
    forall p | p in v'.place && p != leaf
      ensures Filled(caps, v', p)
    {
      assert NodeOK(t, p);
      assert p != 0 && Filled(caps, t, p);
    }
    PutKeepsLatched(caps, t, leaf, ins, key, ref, stack);
    LatchedAgree(caps, v, v', stack);
  }

  lemma {:induction false} PutKeepsLatched(caps: Caps, t: BTree, leaf: PageId, ins: nat, key: nat, ref: RowRef, stack: seq<PageId>)
    requires leaf in t.pages && t.pages[leaf].Leaf? && ins <= |t.pages[leaf].entries| == caps.leafMax
    requires Latched(caps, t, stack, true)
    ensures Latched(caps, PutEntry(t, leaf, ins, key, ref), stack, true)
  {
    var v := PutEntry(t, leaf, ins, key, ref);
    forall i | 0 <= i < |stack|
      ensures OnStack(v, stack, i)
    {
      assert OnStack(t, stack, i);
    }
    forall i | 1 <= i < |stack|
      ensures Link(v, stack, i) && Unsafe(caps, v, stack, true, i)
    {
      assert Link(t, stack, i) && Unsafe(caps, t, stack, true, i);
    }
    assert OnStack(t, stack, 0);
  }
}
