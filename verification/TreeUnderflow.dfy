/** What a delete does to a page that has become too empty: take an entry over from a sibling that can
    spare one, or join with a sibling and take a separator out of the parent. */
module TreeUnderflow {
  import opened Pages
  import opened Tree
  import opened TreeSplit
  import opened TreeJoin
  import opened TreeEntries
  import opened TreeDescent
  import opened TreeOverflow
  import opened Store

  function MinSize(caps: Caps, page: Page): nat {
    if page.Leaf? then caps.leafMax / 2 else caps.internalMax / 2
  }

  /* ---------- a join, leaf or internal ---------- */

  ghost function Join(t: BTree, q: PageId, j: nat): BTree
    requires Siblings(t, q, j)
  {
    SiblingFacts(t, q, j);
    if t.place[q].level == 1 then JoinLeaves(t, q, j) else JoinInternals(t, q, j)
  }

  lemma {:induction false} JoinShaped(t: BTree, q: PageId, j: nat)
    requires Siblings(t, q, j)
    ensures Shaped(Join(t, q, j))
  {
    SiblingFacts(t, q, j);
    if t.place[q].level == 1 {
      JoinLeavesShaped(t, q, j);
    } else {
      JoinInternalsShaped(t, q, j);
    }
  }

  /** What a join does to a page other than the siblings and their parent. */
  lemma {:induction false} JoinAt(t: BTree, q: PageId, j: nat, p: PageId)
    requires Siblings(t, q, j)
    requires p in t.place && p != q && p != Child(t.pages[q], j) && p != Child(t.pages[q], j + 1)
    ensures var t' := Join(t, q, j);
            && InTree(t, p) && IsNode(t.pages[p]) && InTree(t', p) && t'.place[p] == t.place[p]
            && (t'.pages[p].Leaf? <==> t.pages[p].Leaf?) && IsNode(t'.pages[p])
            && Size(t'.pages[p]) == Size(t.pages[p])
            && (t.pages[p].parent != Child(t.pages[q], j + 1) ==> t'.pages[p].parent == t.pages[p].parent)
  {
    SiblingFacts(t, q, j);
    if t.place[q].level == 1 {
      JoinLeavesAt(t, q, j, p);
    } else {
      JoinInternalsAt(t, q, j, p);
      if HasChild(t.pages[Child(t.pages[q], j + 1)], p) {
        RightChildren(t, q, j, p);
      }
    }
  }

  lemma {:induction false} JoinSizes(t: BTree, q: PageId, j: nat)
    requires Siblings(t, q, j)
    ensures var a, b := Child(t.pages[q], j), Child(t.pages[q], j + 1);
            var t' := Join(t, q, j);
            && a in t.pages && b in t.pages && IsNode(t.pages[a]) && IsNode(t.pages[b])
            && (t.pages[a].Leaf? <==> t.pages[b].Leaf?) && (t.pages[a].Leaf? <==> t.place[q].level == 1)
            && a in t'.pages && q in t'.pages && b in t'.pages && t'.pages.Keys == t.pages.Keys
            && t'.place.Keys == t.place.Keys - {b} && q in t'.place && t'.place[q] == t.place[q]
            && t'.pages[q] == WithSeps(t.pages[q], DropAt(t.pages[q].seps, j))
            && t'.root == t.root && t'.rows == t.rows
            && (t'.pages[a].Leaf? <==> t.pages[a].Leaf?) && IsNode(t'.pages[a])
            && Size(t'.pages[a]) == Size(t.pages[a]) + Size(t.pages[b]) + (if t.pages[a].Leaf? then 0 else 1)
            && Child(t'.pages[q], j) == a
  {
    SiblingFacts(t, q, j);
    DropSeparator(t.pages[q], t.place[q], j);
  }

  /* ---------- borrowing ---------- */

  /** The seam between siblings j and j + 1 of q moves so that the left one keeps the first m entries of both. */
  ghost function Reseam(t: BTree, q: PageId, j: nat, m: nat): BTree
    requires Siblings(t, q, j)
    requires CanSplit(Join(t, q, j), q, j, m, Child(t.pages[q], j + 1))
  {
    Split(Join(t, q, j), q, j, m, Child(t.pages[q], j + 1))
  }

  lemma {:induction false} CanReseam(t: BTree, q: PageId, j: nat, m: nat)
    requires Siblings(t, q, j)
    requires 0 < m < Size(Join(t, q, j).pages[Child(t.pages[q], j)])
    ensures CanSplit(Join(t, q, j), q, j, m, Child(t.pages[q], j + 1))
    ensures Shaped(Reseam(t, q, j, m))
  {
    SiblingFacts(t, q, j);
    JoinSizes(t, q, j);
    JoinShaped(t, q, j);
    SplitShaped(Join(t, q, j), q, j, m, Child(t.pages[q], j + 1));
  }

  lemma {:induction false} DropThenPut<T>(s: seq<T>, j: nat, x: T)
    requires j < |s|
    ensures PutAt(DropAt(s, j), j, x) == s[j := x]
  {
  }

  /** Moving the seam between two leaves rewrites the two leaves and one separator, and no link. */
  lemma {:induction false} LeafReseam(t: BTree, q: PageId, j: nat, m: nat) returns (w: BTree)
    requires Siblings(t, q, j) && t.place[q].level == 1
    requires var a, b := Child(t.pages[q], j), Child(t.pages[q], j + 1);
             && a in t.pages && b in t.pages && t.pages[a].Leaf? && t.pages[b].Leaf?
             && 0 < m < |t.pages[a].entries| + |t.pages[b].entries|
    ensures var a, b := Child(t.pages[q], j), Child(t.pages[q], j + 1);
            var both := t.pages[a].entries + t.pages[b].entries;
            && Shaped(w) && w.root == t.root && w.rows == t.rows && w.place.Keys == t.place.Keys
            && w.pages == t.pages[a := WithEntries(t.pages[a], both[..m])][b := WithEntries(t.pages[b], both[m..])]
                                 [q := WithSeps(t.pages[q], t.pages[q].seps[j := Separator(both[m].key, b)])]
  {
    SiblingFacts(t, q, j);
    SiblingsLinked(t, q, j);
    JoinSizes(t, q, j);
    CanReseam(t, q, j, m);
    var a, b := Child(t.pages[q], j), Child(t.pages[q], j + 1);
    w := Reseam(t, q, j, m);
    SplitIsCut(Join(t, q, j), q, j, m, b);
    var both := t.pages[a].entries + t.pages[b].entries;
    DropThenPut(t.pages[q].seps, j, Separator(both[m].key, b));
    if t.pages[b].next != 0 {
      assert NodeOK(t, t.pages[b].next);
    }
  }

  lemma {:induction false} RightParts(na: Page, k: nat, nb: Page, q: PageId)
    requires na.Internal? && nb.Internal? && |nb.seps| >= 1
    ensures var both, m := Joined(na, k, nb, q), |na.seps| + 1;
            && both.seps[m] == nb.seps[0]
            && LowerPart(both, m, q) == Internal(q, na.leftmost, na.seps + [Separator(k, nb.leftmost)])
            && UpperPart(both, m, q) == Internal(q, nb.seps[0].child, nb.seps[1..])
  {
  }

  lemma {:induction false} LeftParts(na: Page, k: nat, nb: Page, q: PageId)
    requires na.Internal? && nb.Internal? && |na.seps| >= 1
    ensures var both, m := Joined(na, k, nb, q), |na.seps| - 1;
            && both.seps[m] == na.seps[m]
            && LowerPart(both, m, q) == Internal(q, na.leftmost, na.seps[..m])
            && UpperPart(both, m, q) == Internal(q, na.seps[m].child, [Separator(k, nb.leftmost)] + nb.seps)
  {
  }

  /** Adopted by a with the whole of nb, then by b with upper: where page p ends up. */
  lemma {:induction false} AdoptedBack(pages: map<PageId, Page>, nb: Page, upper: Page, a: PageId, b: PageId, p: PageId)
    requires p in pages
    requires HasChild(nb, p) ==> IsNode(pages[p]) && pages[p].parent == b
    ensures Adopt(Adopt(pages, nb, a), upper, b)[p] ==
              if HasChild(upper, p) then WithParent(pages[p], b)
              else if HasChild(nb, p) then WithParent(pages[p], a) else pages[p]
    ensures HasChild(nb, p) && HasChild(upper, p) ==> Adopt(Adopt(pages, nb, a), upper, b)[p] == pages[p]
  {
  }

  ghost predicate RightReseamed(t: BTree, w: BTree, q: PageId, j: nat) {
    && q in t.pages && t.pages[q].Internal? && j < |t.pages[q].seps|
    && (var a, b := Child(t.pages[q], j), Child(t.pages[q], j + 1);
        && a in t.pages && b in t.pages && t.pages[a].Internal? && t.pages[b].Internal? && |t.pages[b].seps| > 0
        && (var na, nb, k := t.pages[a], t.pages[b], t.pages[q].seps[j].key;
            && nb.leftmost in t.pages
            && w.pages == t.pages[nb.leftmost := WithParent(t.pages[nb.leftmost], a)]
                                 [a := WithSeps(na, na.seps + [Separator(k, nb.leftmost)])]
                                 [b := Internal(nb.parent, nb.seps[0].child, nb.seps[1..])]
                                 [q := WithSeps(t.pages[q], t.pages[q].seps[j := Separator(nb.seps[0].key, b)])]))
  }

  /** Moving the seam between two internal nodes, in terms of the writes a join and a split make. */
  lemma {:induction false} InternalReseam(t: BTree, q: PageId, j: nat, m: nat) returns (w: BTree)
    requires Siblings(t, q, j) && t.place[q].level > 1
    requires var a, b := Child(t.pages[q], j), Child(t.pages[q], j + 1);
             && a in t.pages && b in t.pages && t.pages[a].Internal? && t.pages[b].Internal?
             && 0 < m < |t.pages[a].seps| + 1 + |t.pages[b].seps|
    ensures Shaped(w) && w.root == t.root && w.rows == t.rows && w.place.Keys == t.place.Keys
    ensures var a, b := Child(t.pages[q], j), Child(t.pages[q], j + 1);
            var both := Joined(t.pages[a], t.pages[q].seps[j].key, t.pages[b], q);
            w.pages == Adopt(Adopt(t.pages, t.pages[b], a), UpperPart(both, m, q), b)
                         [a := LowerPart(both, m, q)][b := UpperPart(both, m, q)]
                         [q := WithSeps(t.pages[q], t.pages[q].seps[j := Separator(both.seps[m].key, b)])]
  {
    SiblingFacts(t, q, j);
    JoinSizes(t, q, j);
    CanReseam(t, q, j, m);
    var a, b := Child(t.pages[q], j), Child(t.pages[q], j + 1);
    w := Reseam(t, q, j, m);
    SplitIsCut(Join(t, q, j), q, j, m, b);
    var both := Joined(t.pages[a], t.pages[q].seps[j].key, t.pages[b], q);
    DropThenPut(t.pages[q].seps, j, Separator(both.seps[m].key, b));
    AdoptOverwritten(t.pages, t.pages[b], both, WithSeps(t.pages[q], DropAt(t.pages[q].seps, j)),
                     UpperPart(both, m, q), LowerPart(both, m, q), a, b, q,
                     WithSeps(t.pages[q], t.pages[q].seps[j := Separator(both.seps[m].key, b)]));
  }

  lemma {:induction false} AdoptOverwritten(pages: map<PageId, Page>, nb: Page, both: Page, dropped: Page, upper: Page, lower: Page,
                         a: PageId, b: PageId, q: PageId, put: Page)
    requires a in pages && b in pages && q in pages
    ensures Adopt(Adopt(pages, nb, a)[a := both][q := dropped], upper, b)[a := lower][b := upper][q := put]
         == Adopt(Adopt(pages, nb, a), upper, b)[a := lower][b := upper][q := put]
  {
  }

  /** Moving the seam by one to the right hands the right node's first child over. */
  lemma {:induction false} RightReseam(t: BTree, q: PageId, j: nat) returns (w: BTree)
    requires Siblings(t, q, j) && t.place[q].level > 1
    requires var b := Child(t.pages[q], j + 1); b in t.pages && t.pages[b].Internal? && |t.pages[b].seps| >= 2
    ensures Shaped(w) && w.root == t.root && w.rows == t.rows && w.place.Keys == t.place.Keys
    ensures RightReseamed(t, w, q, j)
  {
    SiblingFacts(t, q, j);
    var a, b := Child(t.pages[q], j), Child(t.pages[q], j + 1);
    var na, nb, k := t.pages[a], t.pages[b], t.pages[q].seps[j].key;
    w := InternalReseam(t, q, j, |na.seps| + 1);
    RightParts(na, k, nb, q);
    assert ChildOK(t, b, 0) && Child(nb, 0) == nb.leftmost;
    assert NodeOK(t, nb.leftmost);
    RightAdopted(t, q, j);
  }

  lemma {:induction false} RightAdopted(t: BTree, q: PageId, j: nat)
    requires Siblings(t, q, j) && t.place[q].level > 1
    requires var a, b := Child(t.pages[q], j), Child(t.pages[q], j + 1);
             a in t.pages && b in t.pages && t.pages[a].Internal? && t.pages[b].Internal? && |t.pages[b].seps| >= 2
    ensures var a, b := Child(t.pages[q], j), Child(t.pages[q], j + 1);
            var nb := t.pages[b];
            && nb.leftmost in t.pages
            && Adopt(Adopt(t.pages, nb, a), Internal(q, nb.seps[0].child, nb.seps[1..]), b)
               == t.pages[nb.leftmost := WithParent(t.pages[nb.leftmost], a)]
  {
    var a, b := Child(t.pages[q], j), Child(t.pages[q], j + 1);
    var nb := t.pages[b];
    var upper := Internal(q, nb.seps[0].child, nb.seps[1..]);
    RightPart(t, q, j, nb.leftmost);
    forall p | p in t.pages
      ensures Adopt(Adopt(t.pages, nb, a), upper, b)[p] == if p == nb.leftmost then WithParent(t.pages[p], a) else t.pages[p]
    {
      RightPart(t, q, j, p);
      AdoptedBack(t.pages, nb, upper, a, b, p);
    }
  }

  /** Of the right node's children the first goes over, the others keep their parent. */
  lemma {:induction false} RightPart(t: BTree, q: PageId, j: nat, p: PageId)
    requires Siblings(t, q, j) && t.place[q].level > 1
    requires var a, b := Child(t.pages[q], j), Child(t.pages[q], j + 1);
             a in t.pages && b in t.pages && t.pages[a].Internal? && t.pages[b].Internal? && |t.pages[b].seps| >= 2
    ensures var a, b := Child(t.pages[q], j), Child(t.pages[q], j + 1);
            var nb := t.pages[b];
            var upper := Internal(q, nb.seps[0].child, nb.seps[1..]);
            && (HasChild(nb, p) <==> HasChild(upper, p) || p == nb.leftmost)
            && !HasChild(upper, nb.leftmost)
            && (HasChild(nb, p) ==> p in t.pages && IsNode(t.pages[p]) && t.pages[p].parent == b)
  {
    SiblingFacts(t, q, j);
    var b := Child(t.pages[q], j + 1);
    var nb := t.pages[b];
    var upper := Internal(q, nb.seps[0].child, nb.seps[1..]);
    forall i | 0 <= i <= |upper.seps|
      ensures Child(upper, i) == Child(nb, i + 1) && Child(upper, i) != nb.leftmost
    {
      FencesApart(t, b, 0, i + 1);
    }
    if HasChild(nb, p) {
      var i :| 0 <= i <= |nb.seps| && Child(nb, i) == p;
      assert ChildOK(t, b, i);
      assert i > 0 ==> Child(upper, i - 1) == p;
    }
    if HasChild(upper, p) {
      var i :| 0 <= i <= |upper.seps| && Child(upper, i) == p;
      assert Child(nb, i + 1) == p;
    }
    assert Child(nb, 0) == nb.leftmost;
  }

  ghost predicate LeftReseamed(t: BTree, w: BTree, q: PageId, j: nat) {
    && q in t.pages && t.pages[q].Internal? && j < |t.pages[q].seps|
    && (var a, b := Child(t.pages[q], j), Child(t.pages[q], j + 1);
        && a in t.pages && b in t.pages && t.pages[a].Internal? && t.pages[b].Internal? && |t.pages[a].seps| > 0
        && (var na, nb, k := t.pages[a], t.pages[b], t.pages[q].seps[j].key;
            var last := na.seps[|na.seps| - 1];
            && last.child in t.pages
            && w.pages == t.pages[last.child := WithParent(t.pages[last.child], b)]
                                 [a := WithSeps(na, na.seps[..|na.seps| - 1])]
                                 [b := Internal(nb.parent, last.child, [Separator(k, nb.leftmost)] + nb.seps)]
                                 [q := WithSeps(t.pages[q], t.pages[q].seps[j := Separator(last.key, b)])]))
  }

  /** Moving the seam by one to the left hands the left node's last child over. */
  lemma {:induction false} LeftReseam(t: BTree, q: PageId, j: nat) returns (w: BTree)
    requires Siblings(t, q, j) && t.place[q].level > 1
    requires var a := Child(t.pages[q], j); a in t.pages && t.pages[a].Internal? && |t.pages[a].seps| >= 2
    ensures Shaped(w) && w.root == t.root && w.rows == t.rows && w.place.Keys == t.place.Keys
    ensures LeftReseamed(t, w, q, j)
  {
    SiblingFacts(t, q, j);
    var a, b := Child(t.pages[q], j), Child(t.pages[q], j + 1);
    var na, nb, k := t.pages[a], t.pages[b], t.pages[q].seps[j].key;
    w := InternalReseam(t, q, j, |na.seps| - 1);
    LeftParts(na, k, nb, q);
    LeftAdopted(t, q, j);
  }

  lemma {:induction false} LeftAdopted(t: BTree, q: PageId, j: nat)
    requires Siblings(t, q, j) && t.place[q].level > 1
    requires var a, b := Child(t.pages[q], j), Child(t.pages[q], j + 1);
             a in t.pages && b in t.pages && t.pages[a].Internal? && t.pages[b].Internal? && |t.pages[a].seps| >= 2
    ensures var a, b := Child(t.pages[q], j), Child(t.pages[q], j + 1);
            var na, nb := t.pages[a], t.pages[b];
            var last := na.seps[|na.seps| - 1].child;
            && last in t.pages
            && Adopt(Adopt(t.pages, nb, a), Internal(q, last, [Separator(t.pages[q].seps[j].key, nb.leftmost)] + nb.seps), b)
               == t.pages[last := WithParent(t.pages[last], b)]
  {
    SiblingFacts(t, q, j);
    var a, b := Child(t.pages[q], j), Child(t.pages[q], j + 1);
    var na, nb := t.pages[a], t.pages[b];
    var last := na.seps[|na.seps| - 1].child;
    var upper := Internal(q, last, [Separator(t.pages[q].seps[j].key, nb.leftmost)] + nb.seps);
    assert ChildOK(t, a, |na.seps|) && Child(na, |na.seps|) == last;
    forall p | p in t.pages
      ensures Adopt(Adopt(t.pages, nb, a), upper, b)[p] == if p == last then WithParent(t.pages[p], b) else t.pages[p]
    {
      LeftPart(t, q, j, p);
      AdoptedBack(t.pages, nb, upper, a, b, p);
    }
  }

  lemma {:induction false} LeftPart(t: BTree, q: PageId, j: nat, p: PageId)
    requires Siblings(t, q, j) && t.place[q].level > 1
    requires var a, b := Child(t.pages[q], j), Child(t.pages[q], j + 1);
             a in t.pages && b in t.pages && t.pages[a].Internal? && t.pages[b].Internal? && |t.pages[a].seps| >= 2
    ensures var a, b := Child(t.pages[q], j), Child(t.pages[q], j + 1);
            var na, nb := t.pages[a], t.pages[b];
            var last := na.seps[|na.seps| - 1];
            var upper := Internal(q, last.child, [Separator(t.pages[q].seps[j].key, nb.leftmost)] + nb.seps);
            && (HasChild(upper, p) <==> HasChild(nb, p) || p == last.child)
            && (HasChild(nb, p) ==> p in t.pages && IsNode(t.pages[p]) && t.pages[p].parent == b)
            && !HasChild(nb, last.child)
  {
    SiblingFacts(t, q, j);
    var a, b := Child(t.pages[q], j), Child(t.pages[q], j + 1);
    var na, nb := t.pages[a], t.pages[b];
    var last := na.seps[|na.seps| - 1];
    var upper := Internal(q, last.child, [Separator(t.pages[q].seps[j].key, nb.leftmost)] + nb.seps);
    forall i | 0 <= i <= |upper.seps|
      ensures Child(upper, i) == if i == 0 then last.child else Child(nb, i - 1)
    {
    }
    if HasChild(nb, p) {
      var i :| 0 <= i <= |nb.seps| && Child(nb, i) == p;
      assert ChildOK(t, b, i);
      assert Child(upper, i + 1) == p;
    }
    assert Child(upper, 0) == last.child;
    assert ChildOK(t, a, |na.seps|) && Child(na, |na.seps|) == last.child;
    if HasChild(nb, last.child) {
      RightChildren(t, q, j, last.child);
    }
  }
}
