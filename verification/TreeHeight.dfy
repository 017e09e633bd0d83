/** How tall a well-formed tree can be: each level down multiplies the number of pages, so 32-bit
    page numbers leave room for at most 32 levels, the depth of the latch stack. */
module TreeHeight {
  import opened Pages
  import opened Tree
  import opened TreeSplit

  ghost function Level(t: BTree, l: nat): set<PageId> {
    set p | p in t.place && t.place[p].level == l
  }

  function Pow(b: nat, e: nat): nat {
    if e == 0 then 1 else b * Pow(b, e - 1)
  }

  /** The children of the pages in s. */
  ghost function Brood(t: BTree, s: set<PageId>): set<PageId> {
    set c | c in t.place && c != t.root && c in t.pages && IsNode(t.pages[c]) && t.pages[c].parent in s
  }

  ghost function ChildSet(page: Page, n: nat): set<PageId>
    requires page.Internal? && n <= |page.seps| + 1
  {
    set i | 0 <= i < n :: Child(page, i)
  }

  lemma {:induction false} ChildSetSize(t: BTree, p: PageId, n: nat)
    requires InTree(t, p) && t.pages[p].Internal? && InternalOK(t, p) && n <= |t.pages[p].seps| + 1
    ensures |ChildSet(t.pages[p], n)| == n
  {
    if n > 0 {
      ChildSetSize(t, p, n - 1);
      var c := Child(t.pages[p], n - 1);
      forall i | 0 <= i < n - 1
        ensures Child(t.pages[p], i) != c
      {
        FencesApart(t, p, i, n - 1);
      }
      assert ChildSet(t.pages[p], n) == ChildSet(t.pages[p], n - 1) + {c};
    }
  }

  lemma {:induction false} SubsetSize<T>(a: set<T>, b: set<T>)
    requires a <= b
    ensures |a| <= |b|
  {
    assert b == a + (b - a);
  }

  lemma {:induction false} OwnBrood(t: BTree, p: PageId)
    requires Shaped(t) && p in t.place && p in t.pages && t.pages[p].Internal? && t.place[p].level > 0
    ensures forall c :: c in ChildSet(t.pages[p], |t.pages[p].seps| + 1) ==>
              c in t.place && c != t.root && c in t.pages && IsNode(t.pages[c]) && t.pages[c].parent == p
  {
    assert NodeOK(t, p);
    forall c | c in ChildSet(t.pages[p], |t.pages[p].seps| + 1)
      ensures c in t.place && c != t.root && c in t.pages && IsNode(t.pages[c]) && t.pages[c].parent == p
    {
      var i :| 0 <= i <= |t.pages[p].seps| && Child(t.pages[p], i) == c;
      assert ChildOK(t, p, i);
      assert NodeOK(t, c);
    }
  }

  lemma {:induction false} BroodStep(t: BTree, s: set<PageId>, p: PageId)
    requires Shaped(t) && p in s
    requires p in t.place && p in t.pages && t.pages[p].Internal? && t.place[p].level > 0
    ensures |Brood(t, s)| >= |Brood(t, s - {p})| + |t.pages[p].seps| + 1
  {
    assert NodeOK(t, p);
    var own := ChildSet(t.pages[p], |t.pages[p].seps| + 1);
    ChildSetSize(t, p, |t.pages[p].seps| + 1);
    OwnBrood(t, p);
    SubsetSize(own + Brood(t, s - {p}), Brood(t, s));
    assert |own + Brood(t, s - {p})| == |own| + |Brood(t, s - {p})|;
  }

  lemma {:induction false} OneMore(n: nat, k: nat)
    ensures (n + 1) * k == n * k + k
  {
  }

  /** Pages with at least k children each have at least k times as many children. */
  lemma {:induction false} BroodSize(t: BTree, s: set<PageId>, k: nat)
    requires Shaped(t)
    requires forall p :: p in s ==> p in t.place && t.place[p].level > 0 && p in t.pages
                                    && t.pages[p].Internal? && |t.pages[p].seps| + 1 >= k
    ensures |Brood(t, s)| >= |s| * k
  {
    if s == {} {
      assert |s| * k == 0;
    } else {
      var p :| p in s;
      BroodSize(t, s - {p}, k);
      BroodStep(t, s, p);
      OneMore(|s - {p}|, k);
    }
  }

  lemma {:induction false} BroodIsLevel(t: BTree, l: nat)
    requires Shaped(t) && l < t.place[t.root].level
    ensures Brood(t, Level(t, l + 1)) == Level(t, l)
  {
    forall c | c in t.place && c != t.root
      ensures c in t.pages && IsNode(t.pages[c])
      ensures t.pages[c].parent in Level(t, l + 1) <==> t.place[c].level == l
    {
      var _ := ParentOf(t, c);
    }
  }

  /** Every level below the root's has at least 2 * (min + 1)^k pages, k levels further down. */
  lemma {:induction false} LevelSize(caps: Caps, t: BTree, l: nat)
    requires CapsOK(caps) && WellFormed(caps, t) && l < t.place[t.root].level
    ensures |Level(t, l)| >= 2 * Pow(caps.internalMax / 2 + 1, t.place[t.root].level - 1 - l)
    decreases t.place[t.root].level - l
  {
    var h := t.place[t.root].level;
    var above := Level(t, l + 1);
    var k := caps.internalMax / 2 + 1;
    BroodIsLevel(t, l);
    assert NodeOK(t, t.root) && Filled(caps, t, t.root);
    if l + 1 == h {
      BroodSize(t, {t.root}, 2);
      assert Brood(t, {t.root}) <= Brood(t, above);
      SubsetSize(Brood(t, {t.root}), Brood(t, above));
    } else {
      LevelSize(caps, t, l + 1);
      forall p | p in above
        ensures p in t.pages && t.pages[p].Internal? && |t.pages[p].seps| + 1 >= k
      {
        assert NodeOK(t, p) && Filled(caps, t, p);
      }
      BroodSize(t, above, k);
      PowStep(k, h - 2 - l, |above|);
    }
  }

  lemma {:induction false} PowStep(k: nat, e: nat, n: nat)
    requires n >= 2 * Pow(k, e)
    ensures n * k >= 2 * Pow(k, e + 1)
  {
    MulMono(2 * Pow(k, e), n, k);
  }

  lemma {:induction false} MulMono(a: nat, b: nat, k: nat)
    requires a <= b
    ensures a * k <= b * k
  {
  }

  /** A tree of height h >= 2 has at least 2 * (min + 1)^(h - 2) leaves. */
  lemma {:induction false} LeafCount(caps: Caps, t: BTree)
    requires CapsOK(caps) && WellFormed(caps, t) && t.place[t.root].level >= 1
    ensures |Level(t, 0)| >= 2 * Pow(caps.internalMax / 2 + 1, t.place[t.root].level - 1)
  {
    LevelSize(caps, t, 0);
  }

  lemma {:induction false} PowGrows(b: nat, e: nat)
    requires b >= 2
    ensures Pow(b, e) >= Pow(2, e)
  {
    if e > 0 {
      PowGrows(b, e - 1);
      MulMono(2, b, Pow(b, e - 1));
    }
  }

  lemma {:induction false} PowOrder(e: nat, f: nat)
    requires e <= f
    ensures Pow(2, e) <= Pow(2, f)
  {
    if e < f {
      PowOrder(e, f - 1);
    }
  }

  /** A set of numbers below n has at most n members. */
  lemma {:induction false} FewBelow(s: set<nat>, n: nat)
    requires forall p :: p in s ==> p < n
    ensures |s| <= n
  {
    if n == 0 {
      assert s == {};
    } else {
      FewBelow(s - {n - 1}, n - 1);
      SubsetSize(s, (s - {n - 1}) + {n - 1});
    }
  }

  const MAX_TREE_DEPTH: nat := 32

  /** With 32-bit page numbers a tree has at most MAX_TREE_DEPTH levels. */
  lemma {:induction false} DepthBound(caps: Caps, t: BTree)
    requires CapsOK(caps) && WellFormed(caps, t)
    requires forall p :: p in t.pages ==> p < PAGE_LIMIT
    ensures t.place[t.root].level + 1 <= MAX_TREE_DEPTH
  {
    var h := t.place[t.root].level;
    if h >= 32 {
      LeafCount(caps, t);
      PowGrows(caps.internalMax / 2 + 1, h - 1);
      PowOrder(31, h - 1);
      assert Pow(2, 31) == 0x8000_0000 by { PowTwo31(); }
      forall p | p in t.place
        ensures p < PAGE_LIMIT
      {
        assert NodeOK(t, p);
      }
      assert NodeOK(t, t.root);
      FewBelow(Level(t, 0) + {t.root}, PAGE_LIMIT);
    }
  }

  lemma {:induction false} PowTwo31()
    ensures Pow(2, 31) == 0x8000_0000
  {
    assert Pow(2, 8) == 256;
    assert Pow(2, 16) == 65536 by { assert Pow(2, 12) == 4096; }
    assert Pow(2, 24) == 0x100_0000 by { assert Pow(2, 20) == 0x10_0000; }
    assert Pow(2, 28) == 0x1000_0000;
  }
}
