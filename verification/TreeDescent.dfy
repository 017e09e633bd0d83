/** Walking down the tree: for a lookup, to the leftmost leaf, and for a change with the stack of
    pages kept latched; and the height of the tree. */
module TreeDescent {
  import opened Pages
  import opened Tree
  import opened TreeSplit
  import opened TreeEntries
  import opened TreeHeight
  import opened Search
  import opened Store

  datatype Option<T> = None | Some(value: T)

  /** One step down: the child whose interval holds the key. */
  method ChildForKey(db: Store, p: PageId, key: nat) returns (c: PageId, ghost i: nat)
    requires db.Valid() && p in db.place && db.place[p].level > 0
    requires db.place[p].lo <= key < db.place[p].hi
    ensures InTree(db.Index(), p) && db.pages[p].Internal? && i <= |db.pages[p].seps|
    ensures c == Child(db.pages[p], i)
    ensures InTree(db.Index(), c) && IsNode(db.pages[c]) && db.pages[c].parent == p && c != db.root
    ensures db.place[c].level + 1 == db.place[p].level
    ensures db.place[c].lo <= key < db.place[c].hi
    ensures db.place[c].level > 0 <==> db.pages[c].Internal?
  {
    ghost var t := db.Index();
    assert NodeOK(t, p);
    FencesGiveSeps(db.pages[p].seps, db.place[p]);
    var idx := InternalFind(db.pages[p].seps, key);
    ChildSlot(db.pages[p].seps, db.place[p], key, idx);
    assert ChildOK(t, p, idx);
    i := idx;
    c := if idx == 0 then db.pages[p].leftmost else db.pages[p].seps[idx - 1].child;
    assert NodeOK(t, c);
  }

  /** The descent of a lookup. */
  method FindLeaf(db: Store, key: nat) returns (p: PageId)
    requires db.Valid() && key < KEY_LIMIT
    ensures LeafFor(db.Index(), key, p)
  {
    p := db.root;
    assert NodeOK(db.Index(), p);
    while !db.pages[p].Leaf?
      invariant p in db.place && NodeOK(db.Index(), p) && db.place[p].lo <= key < db.place[p].hi
      decreases db.place[p].level
    {
      var c, _ := ChildForKey(db, p, key);
      assert NodeOK(db.Index(), c);
      p := c;
    }
  }

  /** The descent of an unbounded scan. */
  method FindLeftmostLeaf(db: Store) returns (p: PageId)
    requires db.Valid()
    ensures LeafFor(db.Index(), 0, p)
  {
    p := db.root;
    assert NodeOK(db.Index(), p);
    while !db.pages[p].Leaf?
      invariant p in db.place && NodeOK(db.Index(), p) && db.place[p].lo == 0
      decreases db.place[p].level
    {
      assert ChildOK(db.Index(), p, 0);
      p := db.pages[p].leftmost;
      assert NodeOK(db.Index(), p);
    }
  }

  /** A lookup returns what the tree maps the key to, and nothing for a key that is not there. */
  method Lookup(db: Store, key: nat) returns (r: Option<RowRef>)
    requires db.Valid() && key < KEY_LIMIT
    ensures r == if key in db.rows then Some(db.rows[key]) else None
  {
    var p := FindLeaf(db, key);
    assert NodeOK(db.Index(), p);
    var es := db.pages[p].entries;
    var idx := LeafFind(es, key);
    FoundAtSlot(db.Index(), key, p, idx);
    if idx < |es| && es[idx].key == key {
      r := Some(es[idx].ref);
    } else {
      r := None;
    }
  }

  /** Every way down takes the same number of steps. */
  method Height(db: Store) returns (h: nat)
    requires db.Valid()
    ensures h == db.place[db.root].level + 1 && 1 <= h <= MAX_TREE_DEPTH
  {
    h := 1;
    var p := db.root;
    assert NodeOK(db.Index(), p);
    DepthBound(db.caps, db.Index());
    while !db.pages[p].Leaf?
      invariant p in db.place && NodeOK(db.Index(), p) && h + db.place[p].level == db.place[db.root].level + 1
      decreases db.place[p].level
    {
      assert ChildOK(db.Index(), p, 0);
      p := db.pages[p].leftmost;
      h := h + 1;
      assert NodeOK(db.Index(), p);
    }
  }

  /* ---------- the latch stack ---------- */

  predicate Safe(caps: Caps, page: Page, inserting: bool) {
    match page
    case Leaf(_, es, _, _) => if inserting then |es| < caps.leafMax else |es| > caps.leafMax / 2
    case Internal(_, _, seps) => if inserting then |seps| < caps.internalMax else |seps| > caps.internalMax / 2
    case _ => false
  }

  /** A push beyond the depth of the stack is dropped without a word. */
  function Push(stack: seq<PageId>, p: PageId): seq<PageId> {
    if |stack| < MAX_TREE_DEPTH then stack + [p] else stack
  }

  ghost predicate OnStack(t: BTree, stack: seq<PageId>, i: nat)
    requires i < |stack|
  {
    InTree(t, stack[i]) && IsNode(t.pages[stack[i]])
  }

  /** The page at i is a child of the page below it on the stack. */
  ghost predicate Link(t: BTree, stack: seq<PageId>, i: nat)
    requires 1 <= i < |stack|
  {
    && stack[i] in t.pages && stack[i] in t.place && stack[i - 1] in t.place
    && IsNode(t.pages[stack[i]]) && t.pages[stack[i]].parent == stack[i - 1] && stack[i] != t.root
    && t.place[stack[i]].level + 1 == t.place[stack[i - 1]].level
  }

  ghost predicate Unsafe(caps: Caps, t: BTree, stack: seq<PageId>, inserting: bool, i: nat)
    requires i < |stack|
  {
    stack[i] in t.pages && !Safe(caps, t.pages[stack[i]], inserting)
  }

  /** What the descent of a change leaves latched: a line of descent that starts at the root or at a
      page the change cannot pass, and on which no later page could stop it. */
  ghost predicate Latched(caps: Caps, t: BTree, stack: seq<PageId>, inserting: bool) {
    && 1 <= |stack|
    && (forall i {:trigger OnStack(t, stack, i)} :: 0 <= i < |stack| ==> OnStack(t, stack, i))
    && (forall i {:trigger Link(t, stack, i)} :: 1 <= i < |stack| ==> Link(t, stack, i))
    && (stack[0] == t.root || (stack[0] in t.pages && Safe(caps, t.pages[stack[0]], inserting)))
    && (forall i {:trigger Unsafe(caps, t, stack, inserting, i)} :: 1 <= i < |stack| ==> Unsafe(caps, t, stack, inserting, i))
  }

  lemma {:induction false} PushUnsafe(caps: Caps, t: BTree, stack: seq<PageId>, inserting: bool, c: PageId)
    requires Latched(caps, t, stack, inserting)
    requires InTree(t, c) && IsNode(t.pages[c]) && c != t.root && !Safe(caps, t.pages[c], inserting)
    requires t.pages[c].parent == stack[|stack| - 1]
    requires stack[|stack| - 1] in t.place && t.place[c].level + 1 == t.place[stack[|stack| - 1]].level
    ensures Latched(caps, t, stack + [c], inserting)
  {
    var s := stack + [c];
    forall i | 0 <= i < |s|
      ensures OnStack(t, s, i)
    {
      assert i < |stack| ==> OnStack(t, stack, i);
    }
    forall i | 1 <= i < |s|
      ensures Link(t, s, i) && Unsafe(caps, t, s, inserting, i)
    {
      assert i < |stack| ==> Link(t, stack, i) && Unsafe(caps, t, stack, inserting, i);
    }
  }

  /** One step of the descent: a safe child lets go of everything above it. */
  method StepDown(db: Store, key: nat, inserting: bool, p: PageId, s: seq<PageId>) returns (c: PageId, stack: seq<PageId>)
    requires db.Valid() && p in db.place && db.place[p].level > 0 && db.place[p].lo <= key < db.place[p].hi
    requires Latched(db.caps, db.Index(), s, inserting) && s[|s| - 1] == p
    requires |s| < MAX_TREE_DEPTH
    ensures c in db.place && db.place[c].lo <= key < db.place[c].hi && db.place[c].level + 1 == db.place[p].level
    ensures Latched(db.caps, db.Index(), stack, inserting) && stack[|stack| - 1] == c && |stack| <= |s| + 1
  {
    ghost var t := db.Index();
    ghost var i;
    c, i := ChildForKey(db, p, key);
    if Safe(db.caps, db.pages[c], inserting) {
      stack := Push([], c);
      assert OnStack(t, stack, 0);
    } else {
      stack := Push(s, c);
      PushUnsafe(db.caps, t, s, inserting, c);
    }
  }

  method FindLeafLatched(db: Store, key: nat, inserting: bool) returns (p: PageId, stack: seq<PageId>)
    requires db.Valid() && key < KEY_LIMIT
    ensures LeafFor(db.Index(), key, p)
    ensures Latched(db.caps, db.Index(), stack, inserting) && stack[|stack| - 1] == p
    ensures |stack| <= MAX_TREE_DEPTH
  {
    ghost var t := db.Index();
    p := db.root;
    assert NodeOK(t, p);
    DepthBound(db.caps, t);
    stack := Push([], p);
    assert OnStack(t, stack, 0);
    while !db.pages[p].Leaf?
      invariant p in t.place && InTree(t, p) && (db.pages[p].Leaf? <==> t.place[p].level == 0)
      invariant t.place[p].lo <= key < t.place[p].hi
      invariant Latched(db.caps, t, stack, inserting) && stack[|stack| - 1] == p
      invariant |stack| + t.place[p].level <= MAX_TREE_DEPTH
      decreases t.place[p].level
    {
      p, stack := StepDown(db, key, inserting, p, stack);
      assert NodeOK(t, p);
    }
  }

  /* ---------- the range scan ---------- */

  datatype Bounds = Bounds(hasLo: bool, lo: nat, loInclusive: bool, hasHi: bool, hi: nat, hiInclusive: bool)

  predicate AboveLo(b: Bounds, k: nat) {
    !b.hasLo || (if b.loInclusive then b.lo <= k else b.lo < k)
  }

  predicate BelowHi(b: Bounds, k: nat) {
    !b.hasHi || (if b.hiInclusive then k <= b.hi else k < b.hi)
  }

  predicate InBounds(b: Bounds, k: nat) {
    AboveLo(b, k) && BelowHi(b, k)
  }

  /** s lists the rows with a bounded key below a limit: ascending, each once, none left out. */
  ghost predicate ListsRows(s: seq<LeafEntry>, rows: map<nat, RowRef>, b: Bounds, limit: nat) {
    && KeysAscend(s)
    && (forall i {:trigger s[i]} :: 0 <= i < |s| ==>
          s[i].key in rows && rows[s[i].key] == s[i].ref && InBounds(b, s[i].key) && s[i].key < limit)
    && (forall k {:trigger k in rows} :: k in rows && InBounds(b, k) && k < limit ==> HasKey(s, k))
  }

  /** The receiver of a scan: what it answers may depend on everything it has been given so far. */
  type Receiver = seq<LeafEntry> -> bool

  /** What the scan delivers: the receiver asked for more after every entry but the last one, and
      the list is the whole of the range unless the last answer was to stop. */
  ghost predicate Delivered(out: seq<LeafEntry>, rows: map<nat, RowRef>, b: Bounds, more: Receiver) {
    && (forall n {:trigger out[..n]} :: 1 <= n < |out| ==> more(out[..n]))
    && (if |out| > 0 && !more(out)
        then ListsRows(out, rows, b, out[|out| - 1].key + 1)
        else ListsRows(out, rows, b, KEY_LIMIT))
  }

  lemma {:induction false} ExtendList(s: seq<LeafEntry>, rows: map<nat, RowRef>, b: Bounds, limit: nat, e: LeafEntry)
    requires ListsRows(s, rows, b, limit)
    requires limit <= e.key && InBounds(b, e.key) && e.key in rows && rows[e.key] == e.ref
    requires forall k :: k in rows && limit <= k < e.key ==> !InBounds(b, k)
    ensures ListsRows(s + [e], rows, b, e.key + 1)
  {
    forall k | k in rows && InBounds(b, k) && k < e.key + 1
      ensures HasKey(s + [e], k)
    {
      if k == e.key {
        assert (s + [e])[|s|].key == k;
      } else {
        var i :| 0 <= i < |s| && s[i].key == k;
        assert (s + [e])[i].key == k;
      }
    }
  }

  lemma {:induction false} WidenList(s: seq<LeafEntry>, rows: map<nat, RowRef>, b: Bounds, limit: nat, limit': nat)
    requires ListsRows(s, rows, b, limit) && limit <= limit'
    requires forall k :: k in rows && limit <= k < limit' ==> !InBounds(b, k)
    ensures ListsRows(s, rows, b, limit')
  {
  }

  /** The tree has no key between two neighbouring entries of a leaf, or between one end and the interval's. */
  lemma {:induction false} NoKeyBetween(t: BTree, p: PageId, idx: nat, k: nat)
    requires Shaped(t) && p in t.place && p in t.pages && t.pages[p].Leaf? && idx <= |t.pages[p].entries|
    requires t.place[p].lo <= k < t.place[p].hi
    requires idx > 0 ==> t.pages[p].entries[idx - 1].key < k
    requires idx < |t.pages[p].entries| ==> k < t.pages[p].entries[idx].key
    ensures k !in t.rows
  {
    assert NodeOK(t, p);
    if k in t.rows {
      var i :| 0 <= i < |t.pages[p].entries| && t.pages[p].entries[i].key == k;
    }
  }

  ghost predicate NothingBetween(rows: map<nat, RowRef>, b: Bounds, from: nat, to: nat) {
    forall k {:trigger k in rows} :: k in rows && from <= k < to ==> !InBounds(b, k)
  }

  /** The key at idx, or the end of the leaf's interval after the last entry. */
  ghost function KeyAt(es: seq<LeafEntry>, idx: nat, hi: nat): nat {
    if idx < |es| then es[idx].key else hi
  }

  /** Where a scan stands in leaf p: `out` holds the range up to `limit`, and the entry at idx comes next. */
  ghost predicate ScanAt(t: BTree, b: Bounds, p: PageId, idx: nat, out: seq<LeafEntry>, limit: nat) {
    && p in t.place && p in t.pages && t.pages[p].Leaf? && idx <= |t.pages[p].entries|
    && ListsRows(out, t.rows, b, limit)
    && limit <= KeyAt(t.pages[p].entries, idx, t.place[p].hi)
    && NothingBetween(t.rows, b, limit, KeyAt(t.pages[p].entries, idx, t.place[p].hi))
    && (idx < |t.pages[p].entries| ==> AboveLo(b, t.pages[p].entries[idx].key))
  }

  lemma {:induction false} ScanStep(t: BTree, b: Bounds, p: PageId, idx: nat, out: seq<LeafEntry>, limit: nat)
    requires Shaped(t) && ScanAt(t, b, p, idx, out, limit) && idx < |t.pages[p].entries|
    requires BelowHi(b, t.pages[p].entries[idx].key)
    ensures ScanAt(t, b, p, idx + 1, out + [t.pages[p].entries[idx]], t.pages[p].entries[idx].key + 1)
  {
    assert NodeOK(t, p);
    var es := t.pages[p].entries;
    var e := es[idx];
    ExtendList(out, t.rows, b, limit, e);
    forall k | e.key + 1 <= k < KeyAt(es, idx + 1, t.place[p].hi)
      ensures k !in t.rows
    {
      assert idx + 1 < |es| ==> es[idx + 1].key < t.place[p].hi;
      NoKeyBetween(t, p, idx + 1, k);
    }
    assert idx + 1 < |es| ==> es[idx].key < es[idx + 1].key;
  }

  /** An entry above the upper bound ends the range. */
  lemma {:induction false} ScanOver(t: BTree, b: Bounds, p: PageId, idx: nat, out: seq<LeafEntry>, limit: nat)
    requires Shaped(t) && ScanAt(t, b, p, idx, out, limit) && idx < |t.pages[p].entries|
    requires !BelowHi(b, t.pages[p].entries[idx].key)
    ensures ListsRows(out, t.rows, b, KEY_LIMIT)
  {
    assert NodeOK(t, p);
    WidenList(out, t.rows, b, limit, KEY_LIMIT);
  }

  /** After the last entry of a leaf the scan stands at the first of the next, if there is one. */
  lemma {:induction false} ScanNext(t: BTree, b: Bounds, p: PageId, out: seq<LeafEntry>, limit: nat)
    requires Shaped(t) && p in t.place && p in t.pages && t.pages[p].Leaf?
    requires ScanAt(t, b, p, |t.pages[p].entries|, out, limit)
    requires b.hasLo ==> b.lo < t.place[p].hi
    ensures t.pages[p].next == 0 ==> ListsRows(out, t.rows, b, KEY_LIMIT)
    ensures var n := t.pages[p].next;
            n != 0 ==> ScanAt(t, b, n, 0, out, t.place[p].hi) && t.place[p].hi < t.place[n].hi
  {
    assert NodeOK(t, p);
    WidenList(out, t.rows, b, limit, t.place[p].hi);
    var n := t.pages[p].next;
    if n != 0 {
      assert NodeOK(t, n);
      var es := t.pages[n].entries;
      forall k | t.place[n].lo <= k < KeyAt(es, 0, t.place[n].hi)
        ensures k !in t.rows
      {
        assert 0 < |es| ==> es[0].key < t.place[n].hi;
        NoKeyBetween(t, n, 0, k);
      }
    }
  }

  ghost predicate AskedForMore(more: Receiver, out: seq<LeafEntry>) {
    forall n {:trigger out[..n]} :: 1 <= n <= |out| ==> more(out[..n])
  }

  lemma {:induction false} AskedAgain(more: Receiver, out: seq<LeafEntry>, e: LeafEntry)
    requires AskedForMore(more, out)
    ensures forall n :: 1 <= n <= |out| ==> more((out + [e])[..n])
    ensures more(out + [e]) ==> AskedForMore(more, out + [e])
  {
    var s := out + [e];
    forall n | 1 <= n <= |out|
      ensures more(s[..n])
    {
      assert s[..n] == out[..n];
    }
    assert s[..|s|] == s;
  }

  lemma {:induction false} AllAsked(more: Receiver, out: seq<LeafEntry>)
    requires AskedForMore(more, out) && |out| > 0
    ensures more(out)
  {
    assert out[..|out|] == out;
  }

  /** Deliver the entries of one leaf from idx on; `stopped` says that the scan is over. */
  method ScanLeaf(db: Store, b: Bounds, more: Receiver, p: PageId, idx: nat, out: seq<LeafEntry>, ghost limit: nat)
    returns (r: seq<LeafEntry>, stopped: bool, ghost reached: nat)
    requires db.Valid() && ScanAt(db.Index(), b, p, idx, out, limit) && AskedForMore(more, out)
    ensures stopped ==> Delivered(r, db.rows, b, more)
    ensures !stopped ==> ScanAt(db.Index(), b, p, |db.pages[p].entries|, r, reached) && AskedForMore(more, r)
  {
    ghost var t := db.Index();
    var es := db.pages[p].entries;
    r, reached, stopped := out, limit, false;
    var i: nat := idx;
    while i < |es|
      invariant ScanAt(t, b, p, i, r, reached) && AskedForMore(more, r)
    {
      var k := es[i].key;
      if b.hasHi {
        var over := if b.hiInclusive then k > b.hi else k >= b.hi;
        if over {
          ScanOver(t, b, p, i, r, reached);
          if |r| > 0 {
            AllAsked(more, r);
          }
          stopped := true;
          return;
        }
      }
      ScanStep(t, b, p, i, r, reached);
      AskedAgain(more, r, es[i]);
      r := r + [es[i]];
      reached := k + 1;
      if !more(r) {
        stopped := true;
        return;
      }
      i := i + 1;
    }
  }

  lemma {:induction false} ScanStart(t: BTree, b: Bounds, p: PageId, idx: nat)
    requires Shaped(t) && LeafFor(t, if b.hasLo then b.lo else 0, p)
    requires idx <= |t.pages[p].entries|
    requires forall i :: 0 <= i < idx ==> !AboveLo(b, t.pages[p].entries[i].key)
    requires idx < |t.pages[p].entries| ==> AboveLo(b, t.pages[p].entries[idx].key)
    ensures ScanAt(t, b, p, idx, [], t.place[p].lo)
  {
    assert NodeOK(t, p);
    var es := t.pages[p].entries;
    forall k | k in t.rows && t.place[p].lo <= k < KeyAt(es, idx, t.place[p].hi)
      ensures !InBounds(b, k)
    {
      var i :| 0 <= i < |es| && es[i].key == k;
      assert i < idx;
    }
  }

  /** Where a scan starts: the leaf of the lower bound and its first entry inside it. */
  method ScanFirst(db: Store, b: Bounds) returns (p: PageId, idx: nat)
    requires db.Valid() && (b.hasLo ==> b.lo < KEY_LIMIT)
    ensures p in db.place && p in db.pages && db.pages[p].Leaf? && (b.hasLo ==> b.lo < db.place[p].hi)
    ensures ScanAt(db.Index(), b, p, idx, [], db.place[p].lo)
  {
    ghost var t := db.Index();
    if b.hasLo {
      p := FindLeaf(db, b.lo);
    } else {
      p := FindLeftmostLeaf(db);
    }
    assert NodeOK(t, p);
    var es := db.pages[p].entries;
    idx := 0;
    if b.hasLo {
      idx := LeafFind(es, b.lo);
      if !b.loInclusive {
        while idx < |es| && es[idx].key == b.lo
          invariant idx <= |es|
          invariant forall i :: 0 <= i < idx ==> es[i].key <= b.lo
          invariant forall i :: idx <= i < |es| ==> b.lo <= es[i].key
        {
          idx := idx + 1;
        }
      }
    }
    ScanStart(t, b, p, idx);
  }

  /** A range scan delivers exactly the rows within the bounds, each once and in ascending order of
      key, or those up to the first one after which the receiver asks it to stop. */
  method RangeScan(db: Store, b: Bounds, more: Receiver) returns (out: seq<LeafEntry>)
    requires db.Valid() && (b.hasLo ==> b.lo < KEY_LIMIT)
    ensures Delivered(out, db.rows, b, more)
  {
    ghost var t := db.Index();
    var p, idx := ScanFirst(db, b);
    out := [];
    ghost var limit: nat := t.place[p].lo;
    assert NodeOK(t, p);
    while true
      invariant ScanAt(t, b, p, idx, out, limit) && AskedForMore(more, out)
      invariant b.hasLo ==> b.lo < t.place[p].hi
      invariant t.place[p].hi <= KEY_LIMIT
      decreases KEY_LIMIT - t.place[p].hi
    {
      var stopped;
      out, stopped, limit := ScanLeaf(db, b, more, p, idx, out, limit);
      if stopped {
        return;
      }
      ScanNext(t, b, p, out, limit);
      var next := db.pages[p].next;
      if next == 0 {
        if |out| > 0 {
          AllAsked(more, out);
        }
        return;
      }
      assert NodeOK(t, next);
      limit := t.place[p].hi;
      p := next;
      idx := 0;
    }
  }
}
