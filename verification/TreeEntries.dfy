/** Putting one entry into a leaf, taking one out, and adding or removing a level at the root. */
module TreeEntries {
  import opened Pages
  import opened Tree
  import opened TreeSplit

  function WithEntries(page: Page, entries: seq<LeafEntry>): Page {
    match page
    case Leaf(parent, _, next, prev) => Leaf(parent, entries, next, prev)
    case _ => page
  }

  /** Where key belongs: every earlier key is smaller, every later one is not. */
  ghost predicate IsLeafSlot(es: seq<LeafEntry>, key: nat, idx: nat) {
    && idx <= |es|
    && (forall i :: 0 <= i < idx ==> es[i].key < key)
    && (forall i :: idx <= i < |es| ==> key <= es[i].key)
  }

  /** The one leaf whose interval holds the key. */
  ghost predicate LeafFor(t: BTree, key: nat, a: PageId) {
    a in t.place && a in t.pages && t.pages[a].Leaf? && t.place[a].level == 0
    && t.place[a].lo <= key < t.place[a].hi
  }

  /** A key is in the tree exactly when it sits at its slot of its leaf. */
  lemma {:induction false} FoundAtSlot(t: BTree, key: nat, a: PageId, idx: nat)
    requires Shaped(t) && LeafFor(t, key, a) && IsLeafSlot(t.pages[a].entries, key, idx)
    ensures var es := t.pages[a].entries;
            && (key in t.rows <==> idx < |es| && es[idx].key == key)
            && (key in t.rows ==> t.rows[key] == es[idx].ref)
            && (key !in t.rows ==> forall i :: idx <= i < |es| ==> key < es[i].key)
  {
    assert NodeOK(t, a);
    var es := t.pages[a].entries;
    if key in t.rows {
      var i :| 0 <= i < |es| && es[i].key == key;
      assert es[idx].key == key;
    }
  }

  /* ---------- the entries ---------- */

  ghost function PutEntry(t: BTree, a: PageId, idx: nat, key: nat, ref: RowRef): BTree
    requires a in t.pages && t.pages[a].Leaf? && idx <= |t.pages[a].entries|
  {
    t.(pages := t.pages[a := WithEntries(t.pages[a], PutAt(t.pages[a].entries, idx, LeafEntry(key, ref)))],
       rows := t.rows[key := ref])
  }

  ghost function DropEntry(t: BTree, a: PageId, idx: nat): BTree
    requires a in t.pages && t.pages[a].Leaf? && idx < |t.pages[a].entries|
  {
    t.(pages := t.pages[a := WithEntries(t.pages[a], DropAt(t.pages[a].entries, idx))],
       rows := t.rows - {t.pages[a].entries[idx].key})
  }

  lemma {:induction false} PutIndex<T>(s: seq<T>, idx: nat, x: T)
    requires idx <= |s|
    ensures |PutAt(s, idx, x)| == |s| + 1
    ensures forall i {:trigger PutAt(s, idx, x)[i]} :: 0 <= i <= |s| ==>
              PutAt(s, idx, x)[i] == if i < idx then s[i] else if i == idx then x else s[i - 1]
  {
  }

  lemma {:induction false} DropIndex<T>(s: seq<T>, idx: nat)
    requires idx < |s|
    ensures |DropAt(s, idx)| == |s| - 1
    ensures forall i {:trigger DropAt(s, idx)[i]} :: 0 <= i < |s| - 1 ==>
              DropAt(s, idx)[i] == if i < idx then s[i] else s[i + 1]
  {
  }

  lemma {:induction false} PutRows(es: seq<LeafEntry>, rows: map<nat, RowRef>, lo: nat, hi: nat, idx: nat, e: LeafEntry)
    requires KeysAscend(es) && HoldsRows(es, rows, lo, hi) && lo <= e.key < hi
    requires idx <= |es|
    requires forall i :: 0 <= i < idx ==> es[i].key < e.key
    requires forall i :: idx <= i < |es| ==> e.key < es[i].key
    ensures KeysAscend(PutAt(es, idx, e)) && HoldsRows(PutAt(es, idx, e), rows[e.key := e.ref], lo, hi)
  {
    var after, rows' := PutAt(es, idx, e), rows[e.key := e.ref];
    PutIndex(es, idx, e);
    forall k | k in rows' && lo <= k < hi
      ensures HasKey(after, k)
    {
      if k == e.key {
        assert after[idx].key == k;
      } else {
        var i :| 0 <= i < |es| && es[i].key == k;
        assert after[if i < idx then i else i + 1].key == k;
      }
    }
  }

  lemma {:induction false} DropRows(es: seq<LeafEntry>, rows: map<nat, RowRef>, lo: nat, hi: nat, idx: nat)
    requires KeysAscend(es) && HoldsRows(es, rows, lo, hi) && idx < |es|
    ensures KeysAscend(DropAt(es, idx)) && HoldsRows(DropAt(es, idx), rows - {es[idx].key}, lo, hi)
  {
    var after, rows' := DropAt(es, idx), rows - {es[idx].key};
    DropIndex(es, idx);
    forall k | k in rows' && lo <= k < hi
      ensures HasKey(after, k)
    {
      var i :| 0 <= i < |es| && es[i].key == k;
      assert after[if i < idx then i else i - 1].key == k;
    }
  }

  /** Only the leaf that owns the key sees a change of the rows at that key. */
  lemma {:induction false} OtherRows(es: seq<LeafEntry>, rows: map<nat, RowRef>, rows': map<nat, RowRef>, lo: nat, hi: nat)
    requires HoldsRows(es, rows, lo, hi)
    requires forall k :: lo <= k < hi ==> (k in rows <==> k in rows')
    requires forall k :: lo <= k < hi && k in rows ==> rows[k] == rows'[k]
    ensures HoldsRows(es, rows', lo, hi)
  {
  }

  /** Rewriting the entries of one leaf and the rows of its interval keeps the tree in shape. */
  lemma {:induction false} RewriteLeaf(t: BTree, t': BTree, a: PageId, es: seq<LeafEntry>)
    requires Shaped(t) && a in t.place && a in t.pages && t.pages[a].Leaf? && t.place[a].level == 0
    requires t' == t.(pages := t.pages[a := WithEntries(t.pages[a], es)], rows := t'.rows)
    requires KeysAscend(es) && HoldsRows(es, t'.rows, t.place[a].lo, t.place[a].hi)
    requires forall k :: k !in t.rows && k in t'.rows ==> t.place[a].lo <= k < t.place[a].hi
    requires forall k :: k in t.rows && k !in t'.rows ==> t.place[a].lo <= k < t.place[a].hi
    requires forall k :: k in t.rows && k in t'.rows && t.rows[k] != t'.rows[k] ==> t.place[a].lo <= k < t.place[a].hi
    ensures Shaped(t')
  {
    assert NodeOK(t, a);
    forall p | p in t'.place
      ensures NodeOK(t', p)
    {
      assert NodeOK(t, p);
      if p != t.root {
        var i := ParentOf(t, p);
        assert Child(t'.pages[t.pages[p].parent], i) == p;
      }
      if t.place[p].level > 0 {
        forall i | 0 <= i <= |t.pages[p].seps|
          ensures SameChild(t, t', Child(t.pages[p], i))
        {
          assert ChildOK(t, p, i);
        }
        UntouchedInternal(t, t', p);
      } else if p != a {
        LevelsDisjoint(t, p, a);
        OtherRows(t.pages[p].entries, t.rows, t'.rows, t.place[p].lo, t.place[p].hi);
        assert ChainOK(t', p);
      } else {
        assert ChainOK(t', a);
      }
    }
  }

  lemma {:induction false} PutEntryShaped(t: BTree, a: PageId, idx: nat, key: nat, ref: RowRef)
    requires Shaped(t) && LeafFor(t, key, a) && IsLeafSlot(t.pages[a].entries, key, idx) && key !in t.rows
    ensures Shaped(PutEntry(t, a, idx, key, ref))
  {
    FoundAtSlot(t, key, a, idx);
    assert NodeOK(t, a);
    PutRows(t.pages[a].entries, t.rows, t.place[a].lo, t.place[a].hi, idx, LeafEntry(key, ref));
    RewriteLeaf(t, PutEntry(t, a, idx, key, ref), a, PutAt(t.pages[a].entries, idx, LeafEntry(key, ref)));
  }

  lemma {:induction false} DropEntryShaped(t: BTree, a: PageId, idx: nat)
    requires Shaped(t) && a in t.place && a in t.pages && t.pages[a].Leaf? && idx < |t.pages[a].entries|
    ensures Shaped(DropEntry(t, a, idx))
    ensures t.pages[a].entries[idx].key in t.rows
  {
    assert NodeOK(t, a);
    DropRows(t.pages[a].entries, t.rows, t.place[a].lo, t.place[a].hi, idx);
    RewriteLeaf(t, DropEntry(t, a, idx), a, DropAt(t.pages[a].entries, idx));
  }

  /* ---------- the root ---------- */

  /** A new root r above the old one, with no separator yet. */
  ghost function GrowRoot(t: BTree, r: PageId): BTree
    requires t.root in t.pages && t.root in t.place
  {
    t.(pages := t.pages[t.root := WithParent(t.pages[t.root], r)][r := Internal(0, t.root, [])],
       root := r,
       place := t.place[r := Place(t.place[t.root].level + 1, 0, KEY_LIMIT)])
  }

  lemma {:induction false} GrowRootShaped(t: BTree, r: PageId)
    requires Shaped(t) && t.root in t.pages && r != 0 && r !in t.place
    ensures Shaped(GrowRoot(t, r))
  {
    var t' := GrowRoot(t, r);
    assert NodeOK(t, t.root);
    forall p | p in t'.place
      ensures NodeOK(t', p)
    {
      if p == r {
        assert ChildOK(t', r, 0);
      } else {
        assert NodeOK(t, p);
        if p == t.root {
          assert Child(t'.pages[r], 0) == p;
        } else {
          var i := ParentOf(t, p);
          assert Child(t'.pages[t.pages[p].parent], i) == p;
        }
        GrowRootInside(t, r, p);
      }
    }
  }

  lemma {:induction false} GrowRootInside(t: BTree, r: PageId, p: PageId)
    requires Shaped(t) && t.root in t.pages && r != 0 && r !in t.place && p in t.place
    ensures var t' := GrowRoot(t, r);
            InTree(t', p) && if t.place[p].level == 0 then LeafOK(t', p) else InternalOK(t', p)
  {
    var t' := GrowRoot(t, r);
    assert NodeOK(t, t.root) && NodeOK(t, p);
    if t.place[p].level > 0 {
      forall i | 0 <= i <= |t'.pages[p].seps|
        ensures ChildOK(t', p, i)
      {
        assert ChildOK(t, p, i);
        assert NodeOK(t, Child(t.pages[p], i));
      }
    }
  }

  /** The root's only child takes its place. */
  ghost function ShrinkRoot(t: BTree): BTree
    requires t.root in t.pages && t.pages[t.root].Internal? && t.pages[t.root].leftmost in t.pages
  {
    var c := t.pages[t.root].leftmost;
    t.(pages := t.pages[c := WithParent(t.pages[c], 0)], root := c, place := t.place - {t.root})
  }

  ghost predicate ThinRoot(t: BTree) {
    t.root in t.pages && t.pages[t.root].Internal? && t.pages[t.root].seps == []
  }

  lemma {:induction false} ShrinkRootInside(t: BTree, p: PageId)
    requires Shaped(t) && ThinRoot(t) && p in t.place && p != t.root
    ensures t.pages[t.root].leftmost in t.pages
    ensures var t' := ShrinkRoot(t);
            InTree(t', p) && if t.place[p].level == 0 then LeafOK(t', p) else InternalOK(t', p)
  {
    assert NodeOK(t, t.root) && NodeOK(t, p) && ChildOK(t, t.root, 0);
    var t' := ShrinkRoot(t);
    if t.place[p].level > 0 {
      forall i | 0 <= i <= |t'.pages[p].seps|
        ensures ChildOK(t', p, i)
      {
        assert ChildOK(t, p, i);
        assert NodeOK(t, Child(t.pages[p], i));
      }
    } else {
      assert t.pages[p].next != 0 ==> NodeOK(t, t.pages[p].next);
      assert t.pages[p].prev != 0 ==> NodeOK(t, t.pages[p].prev);
    }
  }

  lemma {:induction false} ShrinkRootShaped(t: BTree)
    requires Shaped(t) && ThinRoot(t)
    ensures t.pages[t.root].leftmost in t.pages && t.pages[t.root].leftmost in t.place
    ensures t.pages[t.root].leftmost != t.root
    ensures Shaped(ShrinkRoot(t))
  {
    assert NodeOK(t, t.root) && ChildOK(t, t.root, 0);
    var t' := ShrinkRoot(t);
    forall p | p in t'.place
      ensures NodeOK(t', p)
    {
      assert NodeOK(t, p);
      var i := ParentOf(t, p);
      ShrinkRootInside(t, p);
      if p != t'.root {
        assert t.pages[p].parent == t.root ==> i == 0;
        assert Child(t'.pages[t.pages[p].parent], i) == p;
      }
    }
  }
}
