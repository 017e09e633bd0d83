/** Deleting a key: out of its leaf, and then upwards along the latched pages, borrowing or joining
    where a page has become too empty, until one has not or the root loses its last separator. */
module TreeDelete {
  import opened Pages
  import opened Tree
  import opened TreeSplit
  import opened TreeJoin
  import opened TreeEntries
  import opened TreeHeight
  import opened TreeDescent
  import opened TreeOverflow
  import opened TreeUnderflow
  import opened TreeInsert
  import opened TreeBorrow
  import opened Search
  import opened Store

  /* ---------- joining with a sibling ---------- */

  /** Pages lower on the stack are further from the leaves. */
  lemma {:induction false} DrainLevels(caps: Caps, t: BTree, s: seq<PageId>, i: nat)
    requires Draining(caps, t, s) && i < |s| - 1
    ensures OnStack(t, s, i) && OnStack(t, s, |s| - 1)
    ensures t.place[s[|s| - 1]].level < t.place[s[i]].level
    decreases |s| - i
  {
    assert OnStack(t, s, i) && OnStack(t, s, |s| - 1);
    assert Link(t, s, i + 1);
    if i < |s| - 2 {
      DrainLevels(caps, t, s, i + 1);
    }
  }

  /** The stack above two joined siblings is as it was, and their parent can lose one entry. */
  lemma {:induction false} JoinKeepsDraining(caps: Caps, t: BTree, q: PageId, j: nat, s: seq<PageId>)
    requires Siblings(t, q, j) && |s| >= 2 && Draining(caps, t, s) && s[|s| - 2] == q
    requires s[|s| - 1] == Child(t.pages[q], j) || s[|s| - 1] == Child(t.pages[q], j + 1)
    ensures Draining(caps, Join(t, q, j), s[..|s| - 1])
  {
    SiblingFacts(t, q, j);
    JoinSizes(t, q, j);
    var s', t' := s[..|s| - 1], Join(t, q, j);
    forall i | 0 <= i < |s'|
      ensures OnStack(t', s', i) && (i > 0 ==> Link(t', s', i))
      ensures s'[i] in t.pages && s'[i] in t'.pages && (t'.pages[s'[i]].Leaf? <==> t.pages[s'[i]].Leaf?)
      ensures Size(t'.pages[s'[i]]) == if s'[i] == q then Size(t.pages[q]) - 1 else Size(t.pages[s'[i]])
    {
      DrainLevels(caps, t, s, i);
      if s'[i] != q {
        JoinAt(t, q, j, s'[i]);
      }
      if i > 0 {
        assert Link(t, s, i);
        DrainLevels(caps, t, s, i - 1);
        if s'[i - 1] != q {
          JoinAt(t, q, j, s'[i - 1]);
        }
      }
    }
    assert OnStack(t', s', 0);
    if |s| > 2 {
      assert s'[0] != q by { QBelow(caps, t, s); }
    }
  }

  lemma {:induction false} QBelow(caps: Caps, t: BTree, s: seq<PageId>)
    requires Draining(caps, t, s) && |s| > 2
    ensures s[0] != s[|s| - 2]
  {
    var s' := s[..|s| - 1];
    assert forall i :: 0 <= i < |s'| ==> s'[i] == s[i];
    QuiteBelow(caps, t, s, 0);
  }

  lemma {:induction false} QuiteBelow(caps: Caps, t: BTree, s: seq<PageId>, i: nat)
    requires Draining(caps, t, s) && i < |s| - 2
    ensures OnStack(t, s, i) && OnStack(t, s, |s| - 2)
    ensures t.place[s[|s| - 2]].level < t.place[s[i]].level
    decreases |s| - i
  {
    assert OnStack(t, s, i) && OnStack(t, s, |s| - 2);
    assert Link(t, s, i + 1);
    if i < |s| - 3 {
      QuiteBelow(caps, t, s, i + 1);
    }
  }

  /** What the two pages that are joined must be: one of them just fell below the minimum, the other is at it. */
  ghost predicate Joinable(caps: Caps, f: File, s: seq<PageId>, j: nat) {
    && Falling(caps, f, s) && |s| >= 2
    && (var q, x := s[|s| - 2], s[|s| - 1];
        && q in f.place && q in f.pages && f.pages[q].Internal? && j < |f.pages[q].seps|
        && Filled(caps, IndexOf(f), q) && q != 0
        && (var a, b := Child(f.pages[q], j), Child(f.pages[q], j + 1);
            && (x == a || x == b) && a in f.pages && b in f.pages && IsNode(f.pages[a]) && IsNode(f.pages[b])
            && (f.pages[a].Leaf? <==> f.pages[b].Leaf?)
            && Size(f.pages[a]) + Size(f.pages[b]) + 1 == 2 * MinSize(caps, f.pages[a])))
  }

  /** The tree w once the siblings are joined: whole but for their parent. */
  ghost predicate JoinedTree(caps: Caps, f: File, s: seq<PageId>, j: nat, w: BTree, s': seq<PageId>) {
    && |s| >= 2 && s' == s[..|s| - 1]
    && (var q := s[|s| - 2];
        && q in f.place && q in f.pages && f.pages[q].Internal? && j < |f.pages[q].seps|
        && (var b := Child(f.pages[q], j + 1);
            && Shaped(w) && FilledBut(caps, w, q) && Draining(caps, w, s')
            && w.root == f.root && w.rows == f.rows && w.place.Keys == f.place.Keys - {b}
            && q in w.pages && w.pages[q] == WithSeps(f.pages[q], DropAt(f.pages[q].seps, j))
            && q in w.place && Rewrites(f.pages, w.pages)
            && b in f.pages && IsNode(f.pages[b]) && b != 0))
  }

  lemma {:induction false} JoinFilled(caps: Caps, f: File, s: seq<PageId>, j: nat)
    requires Joinable(caps, f, s, j) && Siblings(IndexOf(f), s[|s| - 2], j)
    ensures FilledBut(caps, Join(IndexOf(f), s[|s| - 2], j), s[|s| - 2])
  {
    var t, q := IndexOf(f), s[|s| - 2];
    var a, b := Child(f.pages[q], j), Child(f.pages[q], j + 1);
    JoinSizes(t, q, j);
    SiblingFacts(t, q, j);
    var w := Join(t, q, j);
    forall p | p in w.place && p != q
      ensures Filled(caps, w, p)
    {
      if p != a {
        assert Filled(caps, t, p);
        JoinAt(t, q, j, p);
      }
    }
  }

  lemma {:induction false} JoinRewrites(t: BTree, q: PageId, j: nat)
    requires Siblings(t, q, j)
    ensures Rewrites(t.pages, Join(t, q, j).pages)
  {
    SiblingFacts(t, q, j);
    var b := Child(t.pages[q], j + 1);
    forall p | p in t.pages
      ensures var p' := Join(t, q, j).pages[p]; p' == t.pages[p] || (Mutable(t.pages[p]) && IsNode(p'))
    {
      if t.place[q].level > 1 && HasChild(t.pages[b], p) {
        RightChildren(t, q, j, p);
      }
      if t.place[q].level == 1 && t.pages[b].next != 0 {
        assert NodeOK(t, t.pages[b].next);
      }
    }
  }

  lemma {:induction false} JoinSiblings(caps: Caps, f: File, s: seq<PageId>, j: nat) returns (w: BTree, s': seq<PageId>)
    requires Joinable(caps, f, s, j)
    ensures JoinedTree(caps, f, s, j, w, s')
    ensures var q := s[|s| - 2];
            var a, b := Child(f.pages[q], j), Child(f.pages[q], j + 1);
            && a != b && a != q && b != q && Siblings(IndexOf(f), q, j) && w.pages == Join(IndexOf(f), q, j).pages
  {
    var t, q := IndexOf(f), s[|s| - 2];
    SiblingFacts(t, q, j);
    w, s' := Join(t, q, j), s[..|s| - 1];
    JoinShaped(t, q, j);
    JoinSizes(t, q, j);
    JoinFilled(caps, f, s, j);
    JoinKeepsDraining(caps, t, q, j, s);
    JoinRewrites(t, q, j);
  }

  /** The right page goes back to the free list, and the delete goes on at the parent. */
  lemma {:induction false} JoinedAndFreed(caps: Caps, f: File, s: seq<PageId>, j: nat, w: BTree, s': seq<PageId>, f': File)
    requires Falling(caps, f, s) && JoinedTree(caps, f, s, j, w, s') && Filled(caps, IndexOf(f), s[|s| - 2])
    requires f'.pages == w.pages[Child(f.pages[s[|s| - 2]], j + 1) := FreePage(f.freeHead)]
    requires Allocated(f'.pages, f'.nextPage, f'.freeHead, f'.free) && f'.nextPage == f.nextPage
    requires f'.root == f.root && f'.rows == f.rows && f'.place == w.place
    ensures Falling(caps, f', s') && HeapKept(f.pages, f'.pages)
    ensures s'[|s'| - 1] in f'.pages && f'.pages[s'[|s'| - 1]].Internal?
  {
    var q := s[|s| - 2];
    var b := Child(f.pages[q], j + 1);
    RewritesKeep(f.pages, w.pages, 0, 0, []);
    assert b != q;
    ShapedAgree(w, IndexOf(f'));
    FilledAgree(caps, w, IndexOf(f'), q);
    DrainingAgree(caps, w, IndexOf(f'), s');
    FreedStray(f, w.pages, b, f');
    assert s'[|s'| - 1] == q;
  }

  lemma {:induction false} FreedStray(f: File, pages: map<PageId, Page>, b: PageId, f': File)
    requires NoStrayPage(f, 0) && Rewrites(f.pages, pages) && b in pages
    requires f'.pages == pages[b := FreePage(f.freeHead)] && f'.place.Keys == f.place.Keys - {b}
    ensures NoStrayPage(f', 0)
  {
    forall p | p in f'.pages
      ensures IsNode(f'.pages[p]) ==> p in f'.place || p == 0
      ensures !f'.pages[p].Zeroed?
    {
      assert p != b ==> f'.pages[p] == pages[p] && (pages[p] == f.pages[p] || !f.pages[p].FreePage?);
    }
  }

  lemma {:induction false} DrainingAgree(caps: Caps, t: BTree, t': BTree, s: seq<PageId>)
    requires Draining(caps, t, s) && t'.root == t.root && t'.place == t.place
    requires forall p {:trigger t.pages[p]} {:trigger t'.pages[p]} :: p in t.place && p in t.pages ==> p in t'.pages && t'.pages[p] == t.pages[p]
    ensures Draining(caps, t', s)
  {
    forall i | 0 <= i < |s|
      ensures OnStack(t', s, i)
    {
      assert OnStack(t, s, i);
    }
    forall i | 1 <= i < |s|
      ensures Link(t', s, i)
    {
      assert OnStack(t, s, i) && OnStack(t, s, i - 1) && Link(t, s, i);
    }
    assert OnStack(t, s, 0);
  }

  /** The entries of the right leaf are copied behind those of the left one. */
  method AppendEntries<T>(left: seq<T>, right: seq<T>) returns (r: seq<T>)
    ensures r == left + right
  {
    r := left;
    var i := 0;
    while i < |right|
      invariant 0 <= i <= |right| && r == left + right[..i]
    {
      r := r + [right[i]];
      i := i + 1;
    }
  }

  method MergeLeavesWrites(db: Store, l: PageId, r: PageId, q: PageId, sep: nat)
    requires l in db.pages && r in db.pages && q in db.pages && l != r && l != q && r != q
    requires db.pages[l].Leaf? && db.pages[r].Leaf? && db.pages[q].Internal? && sep < |db.pages[q].seps|
    requires var n := db.pages[r].next; n != 0 ==> n in db.pages && db.pages[n].Leaf? && n != l && n != r
    modifies db`pages
    ensures var la, lb := old(db.pages)[l], old(db.pages)[r];
            db.pages == Relink(old(db.pages), lb.next, l)[l := Leaf(la.parent, la.entries + lb.entries, lb.next, la.prev)]
                          [q := WithSeps(old(db.pages)[q], DropAt(old(db.pages)[q].seps, sep))]
  {
    var llph, rlph := db.pages[l], db.pages[r];
    var entries := AppendEntries(llph.entries, rlph.entries);
    db.pages := db.pages[l := Leaf(llph.parent, entries, rlph.next, llph.prev)];
    if rlph.next != 0 {
      db.pages := db.pages[rlph.next := WithPrev(db.pages[rlph.next], l)];
    }
    var iph := db.pages[q];
    var seps := ShiftOut(iph.seps, sep);
    db.pages := db.pages[q := Internal(iph.parent, iph.leftmost, seps)];
  }

  method MergeInternalsWrites(db: Store, l: PageId, r: PageId, q: PageId, sep: nat)
    requires l in db.pages && r in db.pages && q in db.pages && l != r && l != q && r != q
    requires db.pages[l].Internal? && db.pages[r].Internal? && db.pages[q].Internal? && sep < |db.pages[q].seps|
    requires forall i :: 0 <= i <= |db.pages[r].seps| ==>
               var c := Child(db.pages[r], i); c in db.pages && c != l && c != r && c != q
    modifies db`pages
    ensures var la, lb, k := old(db.pages)[l], old(db.pages)[r], old(db.pages)[q].seps[sep].key;
            db.pages == Adopt(old(db.pages), lb, l)[l := Joined(la, k, lb, la.parent)]
                          [q := WithSeps(old(db.pages)[q], DropAt(old(db.pages)[q].seps, sep))]
  {
    var liph, riph, iph := db.pages[l], db.pages[r], db.pages[q];
    var seps := liph.seps + [Separator(iph.seps[sep].key, riph.leftmost)] + riph.seps;
    db.pages := db.pages[l := Internal(liph.parent, liph.leftmost, seps)];
    AdoptChildren(db, riph, l);
    var pseps := ShiftOut(iph.seps, sep);
    db.pages := db.pages[q := Internal(iph.parent, iph.leftmost, pseps)];
    assert !HasChild(riph, l) && !HasChild(riph, q);
  }

  lemma {:induction false} LeafNeighbours(t: BTree, q: PageId, j: nat)
    requires Siblings(t, q, j) && t.place[q].level == 1
    ensures var a, b := Child(t.pages[q], j), Child(t.pages[q], j + 1);
            && a in t.pages && b in t.pages && t.pages[a].Leaf? && t.pages[b].Leaf?
            && t.pages[a].parent == q
            && (var n := t.pages[b].next; n != 0 ==> n in t.pages && t.pages[n].Leaf? && n != a && n != b)
  {
    SiblingFacts(t, q, j);
    var b := Child(t.pages[q], j + 1);
    if t.pages[b].next != 0 {
      assert NodeOK(t, t.pages[b].next);
    }
  }

  lemma {:induction false} InternalNeighbours(t: BTree, q: PageId, j: nat)
    requires Siblings(t, q, j) && t.place[q].level > 1
    ensures var a, b := Child(t.pages[q], j), Child(t.pages[q], j + 1);
            && a in t.pages && b in t.pages && t.pages[a].Internal? && t.pages[b].Internal?
            && t.pages[a].parent == q
            && (forall i :: 0 <= i <= |t.pages[b].seps| ==>
                  var c := Child(t.pages[b], i); c in t.pages && c != a && c != b && c != q)
  {
    SiblingFacts(t, q, j);
    var b := Child(t.pages[q], j + 1);
    forall i | 0 <= i <= |t.pages[b].seps|
      ensures var c := Child(t.pages[b], i); c in t.pages && c != Child(t.pages[q], j) && c != b && c != q
    {
      RightChildren(t, q, j, Child(t.pages[b], i));
    }
  }

  /** The writes of a merge are a join. */
  method MergePages(db: Store, q: PageId, l: PageId, r: PageId, j: nat)
    requires Siblings(db.Index(), q, j) && l == Child(db.pages[q], j) && r == Child(db.pages[q], j + 1)
    modifies db`pages
    ensures db.pages == Join(old(db.Index()), q, j).pages
  {
    ghost var t := db.Index();
    JoinSizes(t, q, j);
    SiblingFacts(t, q, j);
    if db.pages[l].Leaf? {
      LeafNeighbours(t, q, j);
      MergeLeavesWrites(db, l, r, q, j);
    } else {
      InternalNeighbours(t, q, j);
      MergeInternalsWrites(db, l, r, q, j);
    }
  }

  method MergeOnFile(db: Store, s: seq<PageId>, l: PageId, r: PageId, j: nat) returns (ghost w: BTree, ghost above: seq<PageId>)
    requires Joinable(db.caps, db.Now(), s, j)
    requires l == Child(db.pages[s[|s| - 2]], j) && r == Child(db.pages[s[|s| - 2]], j + 1)
    modifies db`pages
    ensures JoinedTree(db.caps, old(db.Now()), s, j, w, above) && db.pages == w.pages
    ensures Allocated(db.pages, db.nextPage, db.freeHead, db.free) && r in db.pages && !db.pages[r].FreePage?
  {
    ghost var f := db.Now();
    w, above := JoinSiblings(db.caps, f, s, j);
    MergePages(db, s[|s| - 2], l, r, j);
    RewritesKeep(f.pages, w.pages, f.nextPage, f.freeHead, f.free);
  }

  /** Merge the siblings at j and j + 1 of the parent into the left one and free the right one. */
  method Merge(db: Store, s: seq<PageId>, l: PageId, r: PageId, j: nat) returns (s': seq<PageId>)
    requires Joinable(db.caps, db.Now(), s, j)
    requires l == Child(db.pages[s[|s| - 2]], j) && r == Child(db.pages[s[|s| - 2]], j + 1)
    modifies db`pages, db`freeHead, db`free, db`place
    ensures s' == s[..|s| - 1] && Falling(db.caps, db.Now(), s') && HeapKept(old(db.pages), db.pages)
    ensures s'[|s'| - 1] in db.pages && db.pages[s'[|s'| - 1]].Internal?
  {
    var q := s[|s| - 2];
    ghost var f := db.Now();
    s' := s[..|s| - 1];
    ghost var w, above := MergeOnFile(db, s, l, r, j);
    db.FreePage(r);
    db.place := w.place;
    JoinedAndFreed(db.caps, f, s, j, w, above, db.Now());
    assert above == s';
  }

  /* ---------- the root ---------- */

  lemma {:induction false} RootShrunk(caps: Caps, f: File, s: seq<PageId>) returns (w: BTree)
    requires Falling(caps, f, s) && s[|s| - 1] == f.root && f.pages[f.root].Internal? && f.pages[f.root].seps == []
    ensures var c := f.pages[f.root].leftmost;
            && c in f.pages && IsNode(f.pages[c]) && c != f.root && c != 0
            && WellFormed(caps, w) && w.root == c && w.rows == f.rows && w.place.Keys == f.place.Keys - {f.root}
            && w.pages == f.pages[c := WithParent(f.pages[c], 0)]
  {
    var t := IndexOf(f);
    ShrinkRootShaped(t);
    var c := f.pages[f.root].leftmost;
    assert NodeOK(t, c);
    w := ShrinkRoot(t);
    forall p | p in w.place && p != 0
      ensures Filled(caps, w, p)
    {
      assert Filled(caps, t, p);
    }
  }

  lemma {:induction false} RootFreed(caps: Caps, f: File, s: seq<PageId>, w: BTree, f': File)
    requires Falling(caps, f, s) && f.root in f.pages && IsNode(f.pages[f.root]) && WellFormed(caps, w)
    requires w.root in f.pages && IsNode(f.pages[w.root]) && w.root != f.root
    requires w.pages == f.pages[w.root := WithParent(f.pages[w.root], 0)]
    requires w.rows == f.rows && w.place.Keys == f.place.Keys - {f.root}
    requires f'.pages == w.pages[f.root := FreePage(f.freeHead)]
    requires Allocated(f'.pages, f'.nextPage, f'.freeHead, f'.free) && f'.nextPage == f.nextPage
    requires f'.root == w.root && f'.rows == f.rows && f'.place == w.place
    ensures FileOK(caps, f') && HeapKept(f.pages, f'.pages)
  {
    RewritesKeep(f.pages, w.pages, 0, 0, []);
    ShapedAgree(w, IndexOf(f'));
    FilledAgree(caps, w, IndexOf(f'), 0);
    FreedStray(f, w.pages, f.root, f');
  }

  /** The root has one child left: the child becomes the root and the old root is freed. */
  method ShrinkTheRoot(db: Store, s: seq<PageId>)
    requires Falling(db.caps, db.Now(), s) && s[|s| - 1] == db.root
    requires db.pages[db.root].Internal? && db.pages[db.root].seps == []
    modifies db`pages, db`freeHead, db`free, db`place, db`root
    ensures db.Valid() && HeapKept(old(db.pages), db.pages)
  {
    ghost var f := db.Now();
    ghost var w := RootShrunk(db.caps, f, s);
    var node := db.root;
    var child := db.pages[node].leftmost;
    db.FreePage(node);
    db.root := child;
    ghost var freed := db.pages;
    db.pages := db.pages[child := WithParent(db.pages[child], 0)];
    RewritesKeep(freed, db.pages, db.nextPage, db.freeHead, db.free);
    db.place := w.place;
    assert db.pages == w.pages[node := FreePage(f.freeHead)];
    RootFreed(db.caps, f, s, w, db.Now());
  }

  /* ---------- the way up ---------- */

  /** A page below the minimum has exactly one entry too few, and its siblings are its equals. */
  lemma {:induction false} AroundUnderflow(caps: Caps, f: File, s: seq<PageId>, i: nat)
    requires Falling(caps, f, s) && s[|s| - 1] != f.root && Size(f.pages[s[|s| - 1]]) < MinSize(caps, f.pages[s[|s| - 1]])
    requires |s| >= 2 && s[|s| - 2] in f.pages && f.pages[s[|s| - 2]].Internal? && i <= |f.pages[s[|s| - 2]].seps|
    ensures var q, x := s[|s| - 2], s[|s| - 1];
            var c := Child(f.pages[q], i);
            && Size(f.pages[x]) + 1 == MinSize(caps, f.pages[x])
            && c in f.pages && IsNode(f.pages[c]) && (f.pages[c].Leaf? <==> f.pages[x].Leaf?)
            && (c != x ==> MinSize(caps, f.pages[x]) <= Size(f.pages[c]) <= MaxSize(caps, f.pages[x]))
            && (f.pages[x].Leaf? <==> f.place[q].level == 1)
            && (f.pages[x].Internal? ==> f.place[q].level > 1)
  {
    ParentOnStack(caps, f, s);
    var t, q := IndexOf(f), s[|s| - 2];
    assert NodeOK(t, q) && ChildOK(t, q, i);
    assert NodeOK(t, Child(f.pages[q], i));
    assert Child(f.pages[q], i) != s[|s| - 1] ==> Filled(caps, t, Child(f.pages[q], i));
  }

  /** A separator was taken out of the page on top of the stack. */
  method PropagateDelete(db: Store, s: seq<PageId>)
    requires Falling(db.caps, db.Now(), s) && db.pages[s[|s| - 1]].Internal?
    modifies db`pages, db`freeHead, db`free, db`place, db`root
    ensures db.Valid() && HeapKept(old(db.pages), db.pages)
    decreases |s|, 1
  {
    var node := s[|s| - 1];
    if node == db.root {
      if |db.pages[node].seps| == 0 {
        ShrinkTheRoot(db, s);
      } else {
        SettledIsWhole(db.caps, db.Now(), s);
      }
    } else if |db.pages[node].seps| >= db.caps.internalMax / 2 {
      SettledIsWhole(db.caps, db.Now(), s);
    } else {
      FixInternalUnderflow(db, s);
    }
  }

  /** The page on top of the stack has one entry too few and is child idx of the page below it. */
  ghost predicate Underflowing(caps: Caps, f: File, s: seq<PageId>, idx: nat) {
    && Falling(caps, f, s) && |s| >= 2
    && (var q, x := s[|s| - 2], s[|s| - 1];
        && x != f.root && Size(f.pages[x]) < MinSize(caps, f.pages[x])
        && q in f.pages && f.pages[q].Internal? && idx <= |f.pages[q].seps| && Child(f.pages[q], idx) == x)
  }

  /** Repair an internal page with one separator too few: borrow from the right, else from the left, else merge. */
  method FixInternalUnderflow(db: Store, s: seq<PageId>)
    requires Falling(db.caps, db.Now(), s)
    requires var x := s[|s| - 1]; x != db.root && db.pages[x].Internal? && |db.pages[x].seps| < db.caps.internalMax / 2
    modifies db`pages, db`freeHead, db`free, db`place, db`root
    ensures db.Valid() && HeapKept(old(db.pages), db.pages)
    decreases |s|, 0
  {
    ParentOnStack(db.caps, db.Now(), s);
    var node, q := s[|s| - 1], s[|s| - 2];
    var idx := FindChildIdx(db.pages[q], node);
    var done := TryBorrowRight(db, s, idx);
    if !done {
      done := TryBorrowLeft(db, s, idx);
    }
    if !done {
      MergeAndPropagate(db, s, idx);
    }
  }

  /** The first choice: the right sibling, if there is one and it can spare an entry. */
  method TryBorrowRight(db: Store, s: seq<PageId>, idx: nat) returns (done: bool)
    requires Underflowing(db.caps, db.Now(), s, idx)
    modifies db`pages, db`place
    ensures done ==> db.Valid() && HeapKept(old(db.pages), db.pages)
    ensures !done ==> db.Now() == old(db.Now())
    ensures !done ==> var seps := db.pages[s[|s| - 2]].seps;
              idx < |seps| ==> seps[idx].child in db.pages && Size(db.pages[seps[idx].child]) <= MinSize(db.caps, db.pages[s[|s| - 1]])
  {
    ghost var f := db.Now();
    ParentOnStack(db.caps, f, s);
    var x, q := s[|s| - 1], s[|s| - 2];
    done := false;
    if idx < |db.pages[q].seps| {
      var r := db.pages[q].seps[idx].child;
      AroundUnderflow(db.caps, f, s, idx + 1);
      Neighbours(db.caps, f, s, idx);
      if db.pages[x].Leaf? {
        if |db.pages[r].entries| > db.caps.leafMax / 2 {
          BorrowRightLeaf(db, s, idx);
          done := true;
        }
      } else if |db.pages[r].seps| > db.caps.internalMax / 2 {
        BorrowRightInternal(db, s, idx);
        done := true;
      }
    }
  }

  /** The second choice: the left sibling. */
  method TryBorrowLeft(db: Store, s: seq<PageId>, idx: nat) returns (done: bool)
    requires Underflowing(db.caps, db.Now(), s, idx)
    modifies db`pages, db`place
    ensures done ==> db.Valid() && HeapKept(old(db.pages), db.pages)
    ensures !done ==> db.Now() == old(db.Now())
    ensures !done && idx > 0 ==> var l := Child(db.pages[s[|s| - 2]], idx - 1);
              l in db.pages && Size(db.pages[l]) <= MinSize(db.caps, db.pages[s[|s| - 1]])
  {
    ghost var f := db.Now();
    ParentOnStack(db.caps, f, s);
    var x, q := s[|s| - 1], s[|s| - 2];
    done := false;
    if idx > 0 {
      var l := if idx == 1 then db.pages[q].leftmost else db.pages[q].seps[idx - 2].child;
      AroundUnderflow(db.caps, f, s, idx - 1);
      Neighbours(db.caps, f, s, idx - 1);
      if db.pages[x].Leaf? {
        if |db.pages[l].entries| > db.caps.leafMax / 2 {
          BorrowLeftLeaf(db, s, idx);
          done := true;
        }
      } else if |db.pages[l].seps| > db.caps.internalMax / 2 {
        BorrowLeftInternal(db, s, idx);
        done := true;
      }
    }
  }

  lemma {:induction false} MergeReady(caps: Caps, f: File, s: seq<PageId>, idx: nat, j: nat)
    requires Underflowing(caps, f, s, idx) && (j == idx || j + 1 == idx) && j < |f.pages[s[|s| - 2]].seps|
    requires var other := Child(f.pages[s[|s| - 2]], if j == idx then idx + 1 else j);
             other in f.pages && Size(f.pages[other]) <= MinSize(caps, f.pages[s[|s| - 1]])
    ensures Joinable(caps, f, s, j)
  {
    ParentOnStack(caps, f, s);
    AroundUnderflow(caps, f, s, j);
    AroundUnderflow(caps, f, s, j + 1);
    Neighbours(caps, f, s, j);
  }

  /** The last choice: into the left sibling if there is one, else the right sibling into this page. */
  method MergeAndPropagate(db: Store, s: seq<PageId>, idx: nat)
    requires Underflowing(db.caps, db.Now(), s, idx)
    requires idx == 0 ==> var seps := db.pages[s[|s| - 2]].seps;
               |seps| > 0 ==> seps[0].child in db.pages && Size(db.pages[seps[0].child]) <= MinSize(db.caps, db.pages[s[|s| - 1]])
    requires idx > 0 ==> var l := Child(db.pages[s[|s| - 2]], idx - 1);
               l in db.pages && Size(db.pages[l]) <= MinSize(db.caps, db.pages[s[|s| - 1]])
    modifies db`pages, db`freeHead, db`free, db`place, db`root
    ensures db.Valid() && HeapKept(old(db.pages), db.pages)
    decreases |s| - 1, 2
  {
    ParentOnStack(db.caps, db.Now(), s);
    var x, q := s[|s| - 1], s[|s| - 2];
    var up;
    if idx > 0 {
      var l := if idx == 1 then db.pages[q].leftmost else db.pages[q].seps[idx - 2].child;
      MergeReady(db.caps, db.Now(), s, idx, idx - 1);
      up := Merge(db, s, l, x, idx - 1);
    } else {
      var r := db.pages[q].seps[0].child;
      MergeReady(db.caps, db.Now(), s, 0, 0);
      up := Merge(db, s, x, r, 0);
    }
    PropagateDelete(db, up);
  }

  lemma {:induction false} Neighbours(caps: Caps, f: File, s: seq<PageId>, j: nat)
    requires Falling(caps, f, s) && |s| >= 2
    requires var q := s[|s| - 2]; q in f.place && q in f.pages && f.pages[q].Internal? && j < |f.pages[q].seps|
    ensures var q := s[|s| - 2]; Child(f.pages[q], j) != Child(f.pages[q], j + 1)
  {
    SiblingFacts(IndexOf(f), s[|s| - 2], j);
  }

  method BorrowRightInternal(db: Store, s: seq<PageId>, idx: nat)
    requires Falling(db.caps, db.Now(), s) && |s| >= 2
    requires var q, node := s[|s| - 2], s[|s| - 1];
             && q in db.place && q in db.pages && db.pages[q].Internal? && idx < |db.pages[q].seps| && db.place[q].level > 1
             && Child(db.pages[q], idx) == node
             && db.pages[node].Internal? && |db.pages[node].seps| + 1 == db.caps.internalMax / 2
             && (var r := db.pages[q].seps[idx].child;
                 r in db.pages && db.pages[r].Internal? && db.caps.internalMax / 2 < |db.pages[r].seps| <= db.caps.internalMax)
    modifies db`pages, db`place
    ensures db.Valid() && HeapKept(old(db.pages), db.pages)
  {
    var q, node := s[|s| - 2], s[|s| - 1];
    var r := db.pages[q].seps[idx].child;
    ghost var w := RightBorrowed(db.caps, db.Now(), s, q, idx);
    BorrowRightInternalWrites(db, node, r, q, idx);
    assert db.pages == w.pages;
    db.place := w.place;
  }

  method BorrowLeftInternal(db: Store, s: seq<PageId>, idx: nat)
    requires Falling(db.caps, db.Now(), s) && |s| >= 2
    requires var q, node := s[|s| - 2], s[|s| - 1];
             && q in db.place && q in db.pages && db.pages[q].Internal? && 0 < idx <= |db.pages[q].seps| && db.place[q].level > 1
             && Child(db.pages[q], idx) == node
             && db.pages[node].Internal? && |db.pages[node].seps| + 1 == db.caps.internalMax / 2
             && (var l := Child(db.pages[q], idx - 1);
                 l in db.pages && db.pages[l].Internal? && db.caps.internalMax / 2 < |db.pages[l].seps| <= db.caps.internalMax)
    modifies db`pages, db`place
    ensures db.Valid() && HeapKept(old(db.pages), db.pages)
  {
    var q, node := s[|s| - 2], s[|s| - 1];
    var l := if idx == 1 then db.pages[q].leftmost else db.pages[q].seps[idx - 2].child;
    ghost var w := LeftBorrowed(db.caps, db.Now(), s, q, idx - 1);
    BorrowLeftInternalWrites(db, node, l, q, idx - 1);
    assert db.pages == w.pages;
    db.place := w.place;
  }

  /** Repair a leaf with one entry too few: borrow from the right, else from the left, else merge. */
  method FixLeafUnderflow(db: Store, s: seq<PageId>)
    requires Falling(db.caps, db.Now(), s)
    requires var x := s[|s| - 1]; x != db.root && db.pages[x].Leaf? && |db.pages[x].entries| < db.caps.leafMax / 2
    modifies db`pages, db`freeHead, db`free, db`place, db`root
    ensures db.Valid() && HeapKept(old(db.pages), db.pages)
  {
    ParentOnStack(db.caps, db.Now(), s);
    var leaf, q := s[|s| - 1], s[|s| - 2];
    var idx := FindChildIdx(db.pages[q], leaf);
    var done := TryBorrowRight(db, s, idx);
    if !done {
      done := TryBorrowLeft(db, s, idx);
    }
    if !done {
      MergeAndPropagate(db, s, idx);
    }
  }

  /* ---------- delete ---------- */

  method DeleteEntryFromLeaf(db: Store, leaf: PageId, idx: nat)
    requires leaf in db.pages && db.pages[leaf].Leaf? && idx < |db.pages[leaf].entries|
    modifies db`pages
    ensures db.pages == old(db.pages)[leaf := WithEntries(old(db.pages)[leaf], DropAt(old(db.pages)[leaf].entries, idx))]
  {
    var lph := db.pages[leaf];
    var entries := ShiftOut(lph.entries, idx);
    db.pages := db.pages[leaf := Leaf(lph.parent, entries, lph.next, lph.prev)];
  }

  lemma {:induction false} EntryDropped(caps: Caps, f: File, s: seq<PageId>, leaf: PageId, idx: nat, f': File)
    requires FileOK(caps, f) && Latched(caps, IndexOf(f), s, false) && s[|s| - 1] == leaf
    requires leaf in f.place && leaf in f.pages && f.pages[leaf].Leaf? && idx < |f.pages[leaf].entries|
    requires f' == f.(pages := DropEntry(IndexOf(f), leaf, idx).pages, rows := f.rows - {f.pages[leaf].entries[idx].key})
    ensures Falling(caps, f', s) && HeapKept(f.pages, f'.pages)
  {
    var t, t' := IndexOf(f), IndexOf(f');
    assert t' == DropEntry(t, leaf, idx);
    DropEntryShaped(t, leaf, idx);
    RewritesKeep(f.pages, f'.pages, f.nextPage, f.freeHead, f.free);
    RewritesKeepStray(f, 0, f'.pages, f'.place);
    assert NodeOK(t, leaf) && Filled(caps, t, leaf);
    forall p | p in t'.place && p != leaf
      ensures Filled(caps, t', p)
    {
      assert NodeOK(t, p) && Filled(caps, t, p);
    }
    DropKeepsStack(caps, t, s, leaf, idx);
  }

  lemma {:induction false} DropKeepsStack(caps: Caps, t: BTree, s: seq<PageId>, leaf: PageId, idx: nat)
    requires Latched(caps, t, s, false) && s[|s| - 1] == leaf
    requires leaf in t.pages && t.pages[leaf].Leaf? && idx < |t.pages[leaf].entries|
    requires Shaped(t) && leaf in t.place
    ensures Draining(caps, DropEntry(t, leaf, idx), s)
  {
    var t' := DropEntry(t, leaf, idx);
    forall i | 0 <= i < |s|
      ensures OnStack(t', s, i)
    {
      assert OnStack(t, s, i);
    }
    forall i | 1 <= i < |s|
      ensures Link(t', s, i)
    {
      assert Link(t, s, i);
    }
    assert OnStack(t, s, 0);
    if |s| > 1 {
      assert Link(t, s, 1) && OnStack(t, s, 1);
      assert s[0] != leaf by {
        var _ := ParentOf(t, s[1]);
        assert NodeOK(t, leaf);
      }
    }
  }

  /** A key is taken out of what the tree maps; a key that is not there is refused and nothing changes.
      Either way the result is a well-formed tree, the heap pages are untouched and no page is lost. */
  method Delete(db: Store, key: nat) returns (rc: int)
    requires db.Valid() && key < KEY_LIMIT
    modifies db`pages, db`freeHead, db`free, db`place, db`root, db`rows
    ensures db.Valid() && HeapKept(old(db.pages), db.pages)
    ensures rc == if key in old(db.rows) then 0 else -1
    ensures key !in old(db.rows) ==> db.Now() == old(db.Now())
    ensures db.rows == old(db.rows) - {key}
  {
    ghost var f := db.Now();
    var leaf, stack := FindLeafLatched(db, key, false);
    assert NodeOK(IndexOf(f), leaf);
    var lph := db.pages[leaf];
    var idx := LeafFind(lph.entries, key);
    FoundAtSlot(IndexOf(f), key, leaf, idx);
    if idx >= |lph.entries| || lph.entries[idx].key != key {
      return -1;
    }
    DeleteEntryFromLeaf(db, leaf, idx);
    db.rows := db.rows - {key};
    EntryDropped(db.caps, f, stack, leaf, idx, db.Now());
    rc := 0;
    if leaf == db.root || |db.pages[leaf].entries| >= db.caps.leafMax / 2 {
      SettledIsWhole(db.caps, db.Now(), stack);
    } else {
      FixLeafUnderflow(db, stack);
    }
  }
}
