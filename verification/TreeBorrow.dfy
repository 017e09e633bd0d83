/** The state of a delete on its way up, and the borrows that end it: an entry, or a child, comes over
    from a sibling that can spare one, and the separator between the two moves. */
module TreeBorrow {
  import opened Pages
  import opened Tree
  import opened TreeSplit
  import opened TreeJoin
  import opened TreeEntries
  import opened TreeHeight
  import opened TreeDescent
  import opened TreeOverflow
  import opened TreeUnderflow
  import opened TreeInsert
  import opened Search
  import opened Store

  /* ---------- the file between two steps of a delete ---------- */

  /** What is left of the stack is a line of descent from the root, or from a page that can lose an entry. */
  ghost predicate Draining(caps: Caps, t: BTree, s: seq<PageId>) {
    && 1 <= |s|
    && (forall i {:trigger OnStack(t, s, i)} :: 0 <= i < |s| ==> OnStack(t, s, i))
    && (forall i {:trigger Link(t, s, i)} :: 1 <= i < |s| ==> Link(t, s, i))
    && (s[0] == t.root || (s[0] in t.pages && Size(t.pages[s[0]]) >= MinSize(caps, t.pages[s[0]]) + if |s| == 1 then 0 else 1))
  }

  /** A well-formed tree, but for the page on top of the stack, which may have one entry too few. */
  ghost predicate Falling(caps: Caps, f: File, s: seq<PageId>) {
    && CapsOK(caps) && AllocatedFile(f) && NoStrayPage(f, 0)
    && Draining(caps, IndexOf(f), s)
    && Shaped(IndexOf(f)) && FilledBut(caps, IndexOf(f), s[|s| - 1])
    && (var x := s[|s| - 1];
        && x in f.place && x in f.pages && IsNode(f.pages[x])
        && Size(f.pages[x]) <= MaxSize(caps, f.pages[x])
        && (x != f.root ==> Size(f.pages[x]) + 1 >= MinSize(caps, f.pages[x])))
  }

  /** The page on top of the stack needs no repair. */
  ghost predicate Settled(caps: Caps, f: File, x: PageId)
    requires x in f.pages
  {
    if x == f.root then f.pages[x].Leaf? || Size(f.pages[x]) > 0 else Size(f.pages[x]) >= MinSize(caps, f.pages[x])
  }

  lemma {:induction false} SettledIsWhole(caps: Caps, f: File, s: seq<PageId>)
    requires Falling(caps, f, s) && Settled(caps, f, s[|s| - 1])
    ensures FileOK(caps, f)
  {
    WholeAgain(caps, IndexOf(f), s[|s| - 1]);
  }

  /** A page that needs repair has its parent on the stack, the parent knows it, and it has a sibling:
      the ways out for a missing parent or an unknown child are never taken. */
  lemma {:induction false} ParentOnStack(caps: Caps, f: File, s: seq<PageId>)
    requires Falling(caps, f, s) && s[|s| - 1] != f.root && Size(f.pages[s[|s| - 1]]) < MinSize(caps, f.pages[s[|s| - 1]])
    ensures |s| >= 2
    ensures var q, x := s[|s| - 2], s[|s| - 1];
            && q in f.place && q in f.pages && f.pages[q].Internal? && HasChild(f.pages[q], x) && |f.pages[q].seps| >= 1
            && f.pages[x].parent == q && Filled(caps, IndexOf(f), q) && q != x && q != 0
            && f.place[q].level == f.place[x].level + 1 && (f.place[x].level == 0 <==> f.pages[x].Leaf?)
  {
    var t := IndexOf(f);
    assert OnStack(t, s, |s| - 1);
    assert Link(t, s, |s| - 1);
    var i := ParentOf(t, s[|s| - 1]);
    assert NodeOK(t, s[|s| - 1]);
    assert Filled(caps, t, s[|s| - 2]);
  }

  /* ---------- borrowing ---------- */

  ghost predicate SameSize(p: Page, p': Page) {
    IsNode(p) && IsNode(p') && (p.Leaf? <==> p'.Leaf?) && Size(p) == Size(p')
  }

  ghost predicate SeamMoved(before: map<PageId, Page>, after: map<PageId, Page>, a: PageId, b: PageId) {
    && Rewrites(before, after)
    && (forall p {:trigger after[p]} :: p in before && IsNode(before[p]) && p != a && p != b ==>
          SameSize(before[p], after[p]))
  }

  lemma {:induction false} RightSeam(t: BTree, w: BTree, q: PageId, j: nat)
    requires RightReseamed(t, w, q, j)
    requires var a, b := Child(t.pages[q], j), Child(t.pages[q], j + 1);
             a != b && a != q && b != q && IsNode(t.pages[t.pages[b].leftmost])
             && t.pages[b].leftmost != a && t.pages[b].leftmost != b && t.pages[b].leftmost != q
    ensures var a, b := Child(t.pages[q], j), Child(t.pages[q], j + 1);
            && SeamMoved(t.pages, w.pages, a, b)
            && a in w.pages && w.pages[a].Internal? && Size(w.pages[a]) == Size(t.pages[a]) + 1
            && b in w.pages && w.pages[b].Internal? && Size(w.pages[b]) == Size(t.pages[b]) - 1
  {
  }

  lemma {:induction false} LeftSeam(t: BTree, w: BTree, q: PageId, j: nat)
    requires LeftReseamed(t, w, q, j)
    requires var a, b := Child(t.pages[q], j), Child(t.pages[q], j + 1);
             var c := t.pages[a].seps[|t.pages[a].seps| - 1].child;
             a != b && a != q && b != q && IsNode(t.pages[c]) && c != a && c != b && c != q
    ensures var a, b := Child(t.pages[q], j), Child(t.pages[q], j + 1);
            && SeamMoved(t.pages, w.pages, a, b)
            && a in w.pages && w.pages[a].Internal? && Size(w.pages[a]) == Size(t.pages[a]) - 1
            && b in w.pages && w.pages[b].Internal? && Size(w.pages[b]) == Size(t.pages[b]) + 1
  {
  }

  /** The seam moved: both siblings are within bounds and nothing else changed size. */
  lemma {:induction false} AfterBorrow(caps: Caps, f: File, s: seq<PageId>, w: BTree, a: PageId, b: PageId)
    requires Falling(caps, f, s) && (s[|s| - 1] == a || s[|s| - 1] == b)
    requires Shaped(w) && w.root == f.root && w.rows == f.rows && w.place.Keys == f.place.Keys
    requires SeamMoved(f.pages, w.pages, a, b) && Filled(caps, w, a) && Filled(caps, w, b)
    ensures FileOK(caps, f.(pages := w.pages, place := w.place)) && HeapKept(f.pages, w.pages)
  {
    RewritesKeep(f.pages, w.pages, f.nextPage, f.freeHead, f.free);
    RewritesKeepStray(f, 0, w.pages, w.place);
    assert IndexOf(f.(pages := w.pages, place := w.place)) == w;
    forall p | p in w.place && p != 0
      ensures Filled(caps, w, p)
    {
      if p != a && p != b {
        assert NodeOK(IndexOf(f), p) && Filled(caps, IndexOf(f), p);
      }
    }
  }

  lemma {:induction false} SlotAtEnd(es: seq<LeafEntry>, key: nat, idx: nat)
    requires IsLeafSlot(es, key, idx) && (es == [] || es[|es| - 1].key < key)
    ensures idx == |es|
  {
  }

  lemma {:induction false} SlotAtStart(es: seq<LeafEntry>, key: nat, idx: nat)
    requires IsLeafSlot(es, key, idx) && (es == [] || key < es[0].key)
    ensures idx == 0
  {
  }

  lemma {:induction false} RightSeamEntries(a: seq<LeafEntry>, b: seq<LeafEntry>)
    requires KeysAscend(a + b) && |b| >= 2
    ensures KeysAscend(a) && (a == [] || a[|a| - 1].key < b[0].key)
    ensures PutAt(a, |a|, b[0]) == (a + b)[..|a| + 1]
    ensures DropAt(b, 0) == (a + b)[|a| + 1..] && (a + b)[|a| + 1] == DropAt(b, 0)[0]
  {
    assert forall i :: 0 <= i < |a| ==> (a + b)[i] == a[i];
    assert (a + b)[|a|] == b[0];
  }

  lemma {:induction false} LeftSeamEntries(a: seq<LeafEntry>, b: seq<LeafEntry>)
    requires KeysAscend(a + b) && |a| >= 2
    ensures KeysAscend(b) && (b == [] || a[|a| - 1].key < b[0].key)
    ensures PutAt(b, 0, a[|a| - 1]) == (a + b)[|a| - 1..]
    ensures a[..|a| - 1] == (a + b)[..|a| - 1] && (a + b)[|a| - 1] == a[|a| - 1]
  {
    assert forall i :: 0 <= i < |b| ==> (a + b)[|a| + i] == b[i];
    assert (a + b)[|a| - 1] == a[|a| - 1];
  }

  method BorrowRightLeafWrites(db: Store, leaf: PageId, r: PageId, q: PageId, sep: nat)
    requires leaf in db.pages && r in db.pages && q in db.pages && leaf != r && leaf != q && r != q
    requires db.pages[leaf].Leaf? && db.pages[r].Leaf? && db.pages[q].Internal? && sep < |db.pages[q].seps|
    requires db.pages[q].seps[sep].child == r
    requires KeysAscend(db.pages[leaf].entries + db.pages[r].entries) && |db.pages[r].entries| >= 2
    modifies db`pages
    ensures var a, b := old(db.pages)[leaf], old(db.pages)[r];
            var both, m := a.entries + b.entries, |a.entries| + 1;
            db.pages == old(db.pages)[leaf := WithEntries(a, both[..m])][r := WithEntries(b, both[m..])]
              [q := WithSeps(old(db.pages)[q], old(db.pages)[q].seps[sep := Separator(both[m].key, r)])]
  {
    ghost var a, b := db.pages[leaf].entries, db.pages[r].entries;
    RightSeamEntries(a, b);
    var rlph := db.pages[r];
    var borrowed := rlph.entries[0];
    var rest := ShiftOut(rlph.entries, 0);
    db.pages := db.pages[r := Leaf(rlph.parent, rest, rlph.next, rlph.prev)];
    var newSep := db.pages[r].entries[0].key;
    ghost var idx := LeafInsertEntry(db, leaf, borrowed.key, borrowed.ref);
    SlotAtEnd(a, borrowed.key, idx);
    var iph := db.pages[q];
    db.pages := db.pages[q := Internal(iph.parent, iph.leftmost, iph.seps[sep := Separator(newSep, iph.seps[sep].child)])];
  }

  method BorrowLeftLeafWrites(db: Store, leaf: PageId, l: PageId, q: PageId, sep: nat)
    requires leaf in db.pages && l in db.pages && q in db.pages && leaf != l && leaf != q && l != q
    requires db.pages[leaf].Leaf? && db.pages[l].Leaf? && db.pages[q].Internal? && sep < |db.pages[q].seps|
    requires db.pages[q].seps[sep].child == leaf
    requires KeysAscend(db.pages[l].entries + db.pages[leaf].entries) && |db.pages[l].entries| >= 2
    modifies db`pages
    ensures var a, b := old(db.pages)[l], old(db.pages)[leaf];
            var both, m := a.entries + b.entries, |a.entries| - 1;
            db.pages == old(db.pages)[l := WithEntries(a, both[..m])][leaf := WithEntries(b, both[m..])]
              [q := WithSeps(old(db.pages)[q], old(db.pages)[q].seps[sep := Separator(both[m].key, leaf)])]
  {
    ghost var a, b := db.pages[l].entries, db.pages[leaf].entries;
    LeftSeamEntries(a, b);
    var llph := db.pages[l];
    var borrowed := llph.entries[|llph.entries| - 1];
    db.pages := db.pages[l := Leaf(llph.parent, llph.entries[..|llph.entries| - 1], llph.next, llph.prev)];
    ghost var idx := LeafInsertEntry(db, leaf, borrowed.key, borrowed.ref);
    SlotAtStart(b, borrowed.key, idx);
    var iph := db.pages[q];
    var first := db.pages[leaf].entries[0].key;
    db.pages := db.pages[q := Internal(iph.parent, iph.leftmost, iph.seps[sep := Separator(first, iph.seps[sep].child)])];
  }

  /** Two leaves side by side: their entries ascend across the seam. */
  lemma {:induction false} LeavesAscend(t: BTree, q: PageId, j: nat)
    requires Siblings(t, q, j) && t.place[q].level == 1
    ensures var a, b := Child(t.pages[q], j), Child(t.pages[q], j + 1);
            && a in t.pages && b in t.pages && t.pages[a].Leaf? && t.pages[b].Leaf? && a != b && a != q && b != q
            && KeysAscend(t.pages[a].entries + t.pages[b].entries)
            && t.pages[q].seps[j].child == b
  {
    SiblingFacts(t, q, j);
    var a, b := Child(t.pages[q], j), Child(t.pages[q], j + 1);
    JoinRows(t.pages[a].entries, t.pages[b].entries, t.rows, t.place[a].lo, t.place[a].hi, t.place[b].hi);
  }

  ghost predicate LeafReseamed(t: BTree, w: BTree, q: PageId, j: nat, m: nat) {
    && q in t.pages && t.pages[q].Internal? && j < |t.pages[q].seps|
    && (var a, b := Child(t.pages[q], j), Child(t.pages[q], j + 1);
        && a in t.pages && b in t.pages && t.pages[a].Leaf? && t.pages[b].Leaf?
        && (var both := t.pages[a].entries + t.pages[b].entries;
            && m < |both|
            && w.pages == t.pages[a := WithEntries(t.pages[a], both[..m])][b := WithEntries(t.pages[b], both[m..])]
                                 [q := WithSeps(t.pages[q], t.pages[q].seps[j := Separator(both[m].key, b)])]))
  }

  lemma {:induction false} LeafSeam(t: BTree, w: BTree, q: PageId, j: nat, m: nat)
    requires LeafReseamed(t, w, q, j, m)
    requires var a, b := Child(t.pages[q], j), Child(t.pages[q], j + 1); a != b && a != q && b != q
    ensures var a, b := Child(t.pages[q], j), Child(t.pages[q], j + 1);
            && SeamMoved(t.pages, w.pages, a, b)
            && a in w.pages && w.pages[a].Leaf? && Size(w.pages[a]) == m
            && b in w.pages && w.pages[b].Leaf? && Size(w.pages[b]) == Size(t.pages[a]) + Size(t.pages[b]) - m
  {
  }

  /** The value side of a borrow between leaves: the seam at m gives a whole file. */
  lemma {:induction false} LeafBorrowed(caps: Caps, f: File, s: seq<PageId>, q: PageId, j: nat, m: nat) returns (w: BTree)
    requires Falling(caps, f, s) && q in f.place && q in f.pages && f.pages[q].Internal? && j < |f.pages[q].seps|
    requires f.place[q].level == 1
    requires var a, b := Child(f.pages[q], j), Child(f.pages[q], j + 1);
             && (s[|s| - 1] == a || s[|s| - 1] == b) && a in f.pages && b in f.pages && f.pages[a].Leaf? && f.pages[b].Leaf?
             && caps.leafMax / 2 <= m <= caps.leafMax
             && caps.leafMax / 2 <= |f.pages[a].entries| + |f.pages[b].entries| - m <= caps.leafMax
    ensures LeafReseamed(IndexOf(f), w, q, j, m)
    ensures FileOK(caps, f.(pages := w.pages, place := w.place)) && HeapKept(f.pages, w.pages)
  {
    var t := IndexOf(f);
    SiblingFacts(t, q, j);
    w := LeafReseam(t, q, j, m);
    LeafSeam(t, w, q, j, m);
    AfterBorrow(caps, f, s, w, Child(f.pages[q], j), Child(f.pages[q], j + 1));
  }

  method BorrowRightLeaf(db: Store, s: seq<PageId>, idx: nat)
    requires Falling(db.caps, db.Now(), s) && |s| >= 2
    requires var q, leaf := s[|s| - 2], s[|s| - 1];
             && q in db.place && q in db.pages && db.pages[q].Internal? && idx < |db.pages[q].seps| && db.place[q].level == 1
             && Child(db.pages[q], idx) == leaf
             && db.pages[leaf].Leaf? && |db.pages[leaf].entries| + 1 == db.caps.leafMax / 2
             && (var r := db.pages[q].seps[idx].child;
                 r in db.pages && db.pages[r].Leaf? && db.caps.leafMax / 2 < |db.pages[r].entries| <= db.caps.leafMax)
    modifies db`pages, db`place
    ensures db.Valid() && HeapKept(old(db.pages), db.pages)
  {
    var q, leaf := s[|s| - 2], s[|s| - 1];
    var r := db.pages[q].seps[idx].child;
    ghost var f := db.Now();
    LeavesAscend(IndexOf(f), q, idx);
    ghost var w := LeafBorrowed(db.caps, f, s, q, idx, |f.pages[leaf].entries| + 1);
    BorrowRightLeafWrites(db, leaf, r, q, idx);
    assert db.pages == w.pages;
    db.place := w.place;
  }

  method BorrowLeftLeaf(db: Store, s: seq<PageId>, idx: nat)
    requires Falling(db.caps, db.Now(), s) && |s| >= 2
    requires var q, leaf := s[|s| - 2], s[|s| - 1];
             && q in db.place && q in db.pages && db.pages[q].Internal? && 0 < idx <= |db.pages[q].seps| && db.place[q].level == 1
             && Child(db.pages[q], idx) == leaf
             && db.pages[leaf].Leaf? && |db.pages[leaf].entries| + 1 == db.caps.leafMax / 2
             && (var l := Child(db.pages[q], idx - 1);
                 l in db.pages && db.pages[l].Leaf? && db.caps.leafMax / 2 < |db.pages[l].entries| <= db.caps.leafMax)
    modifies db`pages, db`place
    ensures db.Valid() && HeapKept(old(db.pages), db.pages)
  {
    var q, leaf := s[|s| - 2], s[|s| - 1];
    var l := if idx == 1 then db.pages[q].leftmost else db.pages[q].seps[idx - 2].child;
    ghost var f := db.Now();
    LeavesAscend(IndexOf(f), q, idx - 1);
    ghost var w := LeafBorrowed(db.caps, f, s, q, idx - 1, |f.pages[l].entries| - 1);
    BorrowLeftLeafWrites(db, leaf, l, q, idx - 1);
    assert db.pages == w.pages;
    db.place := w.place;
  }

  method BorrowRightInternalWrites(db: Store, node: PageId, r: PageId, q: PageId, sep: nat)
    requires node in db.pages && r in db.pages && q in db.pages && node != r && node != q && r != q
    requires db.pages[node].Internal? && db.pages[r].Internal? && db.pages[q].Internal? && sep < |db.pages[q].seps|
    requires db.pages[q].seps[sep].child == r && |db.pages[r].seps| >= 1
    requires var c := db.pages[r].leftmost; c in db.pages && c != node && c != r && c != q
    modifies db`pages
    ensures var na, nb, k := old(db.pages)[node], old(db.pages)[r], old(db.pages)[q].seps[sep].key;
            db.pages == old(db.pages)[nb.leftmost := WithParent(old(db.pages)[nb.leftmost], node)]
                          [node := WithSeps(na, na.seps + [Separator(k, nb.leftmost)])]
                          [r := Internal(nb.parent, nb.seps[0].child, nb.seps[1..])]
                          [q := WithSeps(old(db.pages)[q], old(db.pages)[q].seps[sep := Separator(nb.seps[0].key, r)])]
  {
    var iph, niph, riph := db.pages[q], db.pages[node], db.pages[r];
    var moved := riph.leftmost;
    var seps := niph.seps + [Separator(iph.seps[sep].key, moved)];
    var pseps := iph.seps[sep := Separator(riph.seps[0].key, iph.seps[sep].child)];
    var leftmost := riph.seps[0].child;
    var rseps := ShiftOut(riph.seps, 0);
    db.pages := db.pages[node := Internal(niph.parent, niph.leftmost, seps)];
    db.pages := db.pages[r := Internal(riph.parent, leftmost, rseps)];
    db.pages := db.pages[q := Internal(iph.parent, iph.leftmost, pseps)];
    db.pages := db.pages[moved := WithParent(db.pages[moved], node)];
    assert rseps == riph.seps[1..];
  }

  method BorrowLeftInternalWrites(db: Store, node: PageId, l: PageId, q: PageId, sep: nat)
    requires node in db.pages && l in db.pages && q in db.pages && node != l && node != q && l != q
    requires db.pages[node].Internal? && db.pages[l].Internal? && db.pages[q].Internal? && sep < |db.pages[q].seps|
    requires db.pages[q].seps[sep].child == node && |db.pages[l].seps| >= 1
    requires var c := db.pages[l].seps[|db.pages[l].seps| - 1].child; c in db.pages && c != node && c != l && c != q
    modifies db`pages
    ensures var na, nb, k := old(db.pages)[l], old(db.pages)[node], old(db.pages)[q].seps[sep].key;
            var last := na.seps[|na.seps| - 1];
            db.pages == old(db.pages)[last.child := WithParent(old(db.pages)[last.child], node)]
                          [l := WithSeps(na, na.seps[..|na.seps| - 1])]
                          [node := Internal(nb.parent, last.child, [Separator(k, nb.leftmost)] + nb.seps)]
                          [q := WithSeps(old(db.pages)[q], old(db.pages)[q].seps[sep := Separator(last.key, node)])]
  {
    var iph, niph, liph := db.pages[q], db.pages[node], db.pages[l];
    var borrowed := liph.seps[|liph.seps| - 1];
    var seps := ShiftIn(niph.seps, 0, Separator(iph.seps[sep].key, niph.leftmost));
    var pseps := iph.seps[sep := Separator(borrowed.key, iph.seps[sep].child)];
    db.pages := db.pages[node := Internal(niph.parent, borrowed.child, seps)];
    db.pages := db.pages[l := Internal(liph.parent, liph.leftmost, liph.seps[..|liph.seps| - 1])];
    db.pages := db.pages[q := Internal(iph.parent, iph.leftmost, pseps)];
    db.pages := db.pages[borrowed.child := WithParent(db.pages[borrowed.child], node)];
    assert seps == [Separator(iph.seps[sep].key, niph.leftmost)] + niph.seps;
  }

  lemma {:induction false} RightBorrowed(caps: Caps, f: File, s: seq<PageId>, q: PageId, j: nat) returns (w: BTree)
    requires Falling(caps, f, s) && q in f.place && q in f.pages && f.pages[q].Internal? && j < |f.pages[q].seps|
    requires f.place[q].level > 1 && s[|s| - 1] == Child(f.pages[q], j)
    requires var a, b := Child(f.pages[q], j), Child(f.pages[q], j + 1);
             && a in f.pages && b in f.pages && f.pages[a].Internal? && f.pages[b].Internal?
             && |f.pages[a].seps| + 1 == caps.internalMax / 2 < |f.pages[b].seps| <= caps.internalMax
    ensures RightReseamed(IndexOf(f), w, q, j)
    ensures var a, b := Child(f.pages[q], j), Child(f.pages[q], j + 1);
            var c := f.pages[b].leftmost;
            a != b && a != q && b != q && c != a && c != b && c != q
    ensures FileOK(caps, f.(pages := w.pages, place := w.place)) && HeapKept(f.pages, w.pages)
  {
    var t := IndexOf(f);
    SiblingFacts(t, q, j);
    w := RightReseam(t, q, j);
    var b := Child(f.pages[q], j + 1);
    assert ChildOK(t, b, 0) && Child(f.pages[b], 0) == f.pages[b].leftmost;
    RightSeam(t, w, q, j);
    AfterBorrow(caps, f, s, w, Child(f.pages[q], j), b);
  }

  lemma {:induction false} LeftBorrowed(caps: Caps, f: File, s: seq<PageId>, q: PageId, j: nat) returns (w: BTree)
    requires Falling(caps, f, s) && q in f.place && q in f.pages && f.pages[q].Internal? && j < |f.pages[q].seps|
    requires f.place[q].level > 1 && s[|s| - 1] == Child(f.pages[q], j + 1)
    requires var a, b := Child(f.pages[q], j), Child(f.pages[q], j + 1);
             && a in f.pages && b in f.pages && f.pages[a].Internal? && f.pages[b].Internal?
             && |f.pages[b].seps| + 1 == caps.internalMax / 2 < |f.pages[a].seps| <= caps.internalMax
    ensures LeftReseamed(IndexOf(f), w, q, j)
    ensures var a, b := Child(f.pages[q], j), Child(f.pages[q], j + 1);
            var c := f.pages[a].seps[|f.pages[a].seps| - 1].child;
            a != b && a != q && b != q && c != a && c != b && c != q
    ensures FileOK(caps, f.(pages := w.pages, place := w.place)) && HeapKept(f.pages, w.pages)
  {
    var t := IndexOf(f);
    SiblingFacts(t, q, j);
    w := LeftReseam(t, q, j);
    var a := Child(f.pages[q], j);
    var n := |f.pages[a].seps|;
    assert ChildOK(t, a, n) && Child(f.pages[a], n) == f.pages[a].seps[n - 1].child;
    LeftSeam(t, w, q, j);
    AfterBorrow(caps, f, s, w, a, Child(f.pages[q], j + 1));
  }
}
