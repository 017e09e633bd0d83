/** Lock entries and the doubly linked lists that run through them: one list per bucket of point
    locks, one of range locks, and one per thread of everything it holds. */
module LockLists {

  /** The address of an entry; zero is no entry. */
  type Ptr = nat
  type Thread = nat

  datatype Mode = S | X

  /** A point lock has a `rangeHigh` of zero. */
  datatype Lock = Lock(rowId: nat, rangeHigh: nat, isRange: bool, mode: Mode, owner: Thread)

  datatype Entry = Entry(lock: Lock, next: Ptr, prev: Ptr, ownerNext: Ptr, ownerPrev: Ptr)

  const BUCKETS: nat := 256

  /** The list of range locks comes behind those of the buckets. */
  const RANGES: nat := 256

  /** `chains` lists the entries of each global list, `owned` those of each thread. */
  datatype Lists = Lists(
    mem: map<Ptr, Entry>,
    heads: seq<Ptr>,
    held: map<Thread, Ptr>,
    chains: seq<seq<Ptr>>,
    owned: map<Thread, seq<Ptr>>)

  function ListOf(k: Lock): nat
    ensures ListOf(k) <= RANGES
  {
    if k.isRange then RANGES else k.rowId % BUCKETS
  }

  function Nth(chain: seq<Ptr>, k: nat): Ptr {
    if k < |chain| then chain[k] else 0
  }

  function Held(s: Lists, th: Thread): Ptr {
    if th in s.held then s.held[th] else 0
  }

  function OwnedBy(s: Lists, th: Thread): seq<Ptr> {
    if th in s.owned then s.owned[th] else []
  }

  ghost predicate Distinct(chain: seq<Ptr>) {
    forall j, k :: 0 <= j < k < |chain| ==> chain[j] != chain[k]
  }

  /* ---------- the global lists ---------- */

  ghost predicate LinkOK(s: Lists, l: nat, k: nat)
    requires l < |s.chains| && k < |s.chains[l]|
  {
    var p := s.chains[l][k];
    && p != 0 && p in s.mem && ListOf(s.mem[p].lock) == l
    && s.mem[p].next == Nth(s.chains[l], k + 1)
    && s.mem[p].prev == if k == 0 then 0 else s.chains[l][k - 1]
  }

  ghost predicate ListOK(s: Lists, l: nat)
    requires l < |s.chains| && l < |s.heads|
  {
    && s.heads[l] == Nth(s.chains[l], 0)
    && Distinct(s.chains[l])
    && (forall k {:trigger LinkOK(s, l, k)} :: 0 <= k < |s.chains[l]| ==> LinkOK(s, l, k))
  }

  ghost predicate OnList(s: Lists, p: Ptr)
    requires |s.chains| == RANGES + 1 && p in s.mem
  {
    p in s.chains[ListOf(s.mem[p].lock)]
  }

  /** Every entry but x is on the list it belongs to. */
  ghost predicate GlobalOK(s: Lists, x: Ptr) {
    && |s.heads| == |s.chains| == RANGES + 1
    && (forall l {:trigger ListOK(s, l)} :: 0 <= l <= RANGES ==> ListOK(s, l))
    && (forall p {:trigger OnList(s, p)} :: p in s.mem && p != x ==> OnList(s, p))
    && (forall l {:trigger s.chains[l]} :: 0 <= l <= RANGES ==> x !in s.chains[l])
    && 0 !in s.mem
  }

  /* ---------- the lists of the threads ---------- */

  ghost predicate OwnerLinkOK(s: Lists, th: Thread, k: nat)
    requires k < |OwnedBy(s, th)|
  {
    var p := OwnedBy(s, th)[k];
    && p != 0 && p in s.mem && s.mem[p].lock.owner == th
    && s.mem[p].ownerNext == Nth(OwnedBy(s, th), k + 1)
    && (k > 0 ==> s.mem[p].ownerPrev == OwnedBy(s, th)[k - 1])
  }

  ghost predicate OwnerListOK(s: Lists, th: Thread) {
    && Distinct(OwnedBy(s, th))
    && (forall k {:trigger OwnerLinkOK(s, th, k)} :: 0 <= k < |OwnedBy(s, th)| ==> OwnerLinkOK(s, th, k))
  }

  ghost predicate OnOwnerList(s: Lists, p: Ptr)
    requires p in s.mem
  {
    p in OwnedBy(s, s.mem[p].lock.owner)
  }

  /** Every entry but x is on its owner's list. */
  ghost predicate OwnersOK(s: Lists, x: Ptr) {
    && (forall th {:trigger OwnerListOK(s, th)} :: OwnerListOK(s, th))
    && (forall p {:trigger OnOwnerList(s, p)} :: p in s.mem && p != x ==> OnOwnerList(s, p))
    && (forall th {:trigger OwnedBy(s, th)} :: x !in OwnedBy(s, th))
  }

  /** The heads of the threads' lists, but for the thread in `not`. */
  ghost predicate HeadsOK(s: Lists, not: set<Thread>) {
    forall th {:trigger Held(s, th)} :: th !in not ==> Held(s, th) == Nth(OwnedBy(s, th), 0)
  }

  ghost predicate ListsOK(s: Lists) {
    GlobalOK(s, 0) && OwnersOK(s, 0) && HeadsOK(s, {})
  }

  /** Which locks there are, whatever the links. */
  ghost function Locks(s: Lists): map<Ptr, Lock> {
    map p | p in s.mem :: s.mem[p].lock
  }

  /* ---------- a new entry ---------- */

  /** A fresh entry that is on no list yet. */
  lemma {:induction false} Allocated(s: Lists, p: Ptr, e: Entry) returns (s': Lists)
    requires ListsOK(s) && p != 0 && p !in s.mem
    ensures s' == s.(mem := s.mem[p := e]) && GlobalOK(s', p) && OwnersOK(s', p) && HeadsOK(s', {})
  {
    s' := s.(mem := s.mem[p := e]);
    forall l | 0 <= l <= RANGES
      ensures ListOK(s', l) && p !in s'.chains[l]
    {
      assert ListOK(s, l);
      forall k | 0 <= k < |s.chains[l]|
        ensures LinkOK(s', l, k) && s.chains[l][k] != p
      {
        assert LinkOK(s, l, k);
      }
    }
    forall th
      ensures OwnerListOK(s', th) && p !in OwnedBy(s', th)
    {
      assert OwnerListOK(s, th) && OwnedBy(s', th) == OwnedBy(s, th);
      forall k | 0 <= k < |OwnedBy(s, th)|
        ensures OwnerLinkOK(s', th, k) && OwnedBy(s, th)[k] != p
      {
        assert OwnerLinkOK(s, th, k);
      }
    }
    forall q | q in s'.mem && q != p
      ensures OnList(s', q) && OnOwnerList(s', q)
    {
      assert OnList(s, q) && OnOwnerList(s, q);
    }
    forall th
      ensures Held(s', th) == Nth(OwnedBy(s', th), 0)
    {
      assert Held(s, th) == Nth(OwnedBy(s, th), 0);
    }
  }

  /** The entry goes to the front of its global list. */
  function Fronted(s: Lists, p: Ptr): Lists
    requires p in s.mem && |s.heads| == |s.chains| == RANGES + 1
  {
    var l := ListOf(s.mem[p].lock);
    var h := s.heads[l];
    var mem := s.mem[p := s.mem[p].(prev := 0, next := h)];
    s.(mem := if h != 0 && h in mem then mem[h := mem[h].(prev := p)] else mem,
       heads := s.heads[l := p], chains := s.chains[l := [p] + s.chains[l]])
  }

  lemma {:induction false} FrontedOK(s: Lists, p: Ptr) returns (s': Lists)
    requires GlobalOK(s, p) && p in s.mem && p != 0
    ensures s.heads[ListOf(s.mem[p].lock)] != 0 ==> s.heads[ListOf(s.mem[p].lock)] in s.mem && s.heads[ListOf(s.mem[p].lock)] != p
    ensures s' == Fronted(s, p) && GlobalOK(s', 0) && SameOwnerSide(s, s')
  {
    s' := Fronted(s, p);
    var l0 := ListOf(s.mem[p].lock);
    assert ListOK(s, l0) && p !in s.chains[l0];
    assert |s.chains[l0]| > 0 ==> LinkOK(s, l0, 0);
    forall l | 0 <= l <= RANGES
      ensures ListOK(s', l) && 0 !in s'.chains[l]
    {
      FrontedList(s, p, l);
    }
    forall q | q in s'.mem
      ensures OnList(s', q)
    {
      if q != p {
        assert OnList(s, q);
      }
    }
  }

  lemma {:induction false} FrontedList(s: Lists, p: Ptr, l: nat)
    requires GlobalOK(s, p) && p in s.mem && p != 0 && l <= RANGES
    ensures ListOK(Fronted(s, p), l) && 0 !in Fronted(s, p).chains[l]
  {
    var s' := Fronted(s, p);
    var l0 := ListOf(s.mem[p].lock);
    assert ListOK(s, l) && ListOK(s, l0) && p !in s.chains[l] && p !in s.chains[l0];
    assert |s.chains[l0]| > 0 ==> LinkOK(s, l0, 0);
    forall k | 0 <= k < |s'.chains[l]|
      ensures LinkOK(s', l, k)
    {
      if l == l0 {
        if k > 0 {
          assert LinkOK(s, l, k - 1);
        }
      } else {
        assert LinkOK(s, l, k);
      }
    }
    forall k | 0 <= k < |s'.chains[l]|
      ensures s'.chains[l][k] != 0
    {
      assert LinkOK(s', l, k);
    }
  }

  /** What the threads' lists depend on is the same. */
  ghost predicate SameOwnerSide(s: Lists, s': Lists) {
    && s'.mem.Keys == s.mem.Keys && s'.held == s.held && s'.owned == s.owned
    && (forall p {:trigger s'.mem[p]} {:trigger s.mem[p]} :: p in s.mem ==>
          s'.mem[p].lock == s.mem[p].lock && s'.mem[p].ownerNext == s.mem[p].ownerNext && s'.mem[p].ownerPrev == s.mem[p].ownerPrev)
  }

  lemma {:induction false} OwnerSideKept(s: Lists, s': Lists, x: Ptr, not: set<Thread>)
    requires SameOwnerSide(s, s') && OwnersOK(s, x) && HeadsOK(s, not)
    ensures OwnersOK(s', x) && HeadsOK(s', not) && Locks(s') == Locks(s)
  {
    forall th
      ensures OwnerListOK(s', th) && OwnedBy(s', th) == OwnedBy(s, th) && Held(s', th) == Held(s, th)
      ensures x !in OwnedBy(s', th)
    {
      assert OwnerListOK(s, th);
      forall k | 0 <= k < |OwnedBy(s, th)|
        ensures OwnerLinkOK(s', th, k)
      {
        assert OwnerLinkOK(s, th, k);
      }
    }
    forall p | p in s'.mem && p != x
      ensures OnOwnerList(s', p)
    {
      assert OnOwnerList(s, p);
    }
  }

  /** What the global lists depend on is the same. */
  ghost predicate SameGlobalSide(s: Lists, s': Lists) {
    && s'.mem.Keys == s.mem.Keys && s'.heads == s.heads && s'.chains == s.chains
    && (forall p {:trigger s'.mem[p]} {:trigger s.mem[p]} :: p in s.mem ==>
          ListOf(s'.mem[p].lock) == ListOf(s.mem[p].lock) && s'.mem[p].next == s.mem[p].next && s'.mem[p].prev == s.mem[p].prev)
  }

  lemma {:induction false} GlobalSideKept(s: Lists, s': Lists, x: Ptr)
    requires SameGlobalSide(s, s') && GlobalOK(s, x)
    ensures GlobalOK(s', x)
  {
    forall l | 0 <= l <= RANGES
      ensures ListOK(s', l)
    {
      assert ListOK(s, l);
      forall k | 0 <= k < |s.chains[l]|
        ensures LinkOK(s', l, k)
      {
        assert LinkOK(s, l, k);
      }
    }
    forall p | p in s'.mem && p != x
      ensures OnList(s', p)
    {
      assert OnList(s, p);
    }
  }

  /** The entry goes to the front of its owner's list. */
  function Pushed(s: Lists, p: Ptr): Lists
    requires p in s.mem
  {
    var th := s.mem[p].lock.owner;
    var h := Held(s, th);
    var mem := s.mem[p := s.mem[p].(ownerPrev := 0, ownerNext := h)];
    s.(mem := if h != 0 && h in mem then mem[h := mem[h].(ownerPrev := p)] else mem,
       held := s.held[th := p], owned := s.owned[th := [p] + OwnedBy(s, th)])
  }

  lemma {:induction false} PushedSide(s: Lists, p: Ptr) returns (s': Lists)
    requires p in s.mem
    ensures s' == Pushed(s, p) && SameGlobalSide(s, s') && Locks(s') == Locks(s)
    ensures forall q {:trigger s'.mem[q]} :: q in s.mem ==> s'.mem[q].lock == s.mem[q].lock
  {
    s' := Pushed(s, p);
  }

  lemma {:induction false} PushedOK(s: Lists, p: Ptr) returns (s': Lists)
    requires OwnersOK(s, p) && HeadsOK(s, {}) && p in s.mem && p != 0 && 0 !in s.mem
    ensures Held(s, s.mem[p].lock.owner) != 0 ==> Held(s, s.mem[p].lock.owner) in s.mem && Held(s, s.mem[p].lock.owner) != p
    ensures s' == Pushed(s, p) && OwnersOK(s', 0) && HeadsOK(s', {}) && SameGlobalSide(s, s') && Locks(s') == Locks(s)
  {
    s' := PushedSide(s, p);
    var th0 := s.mem[p].lock.owner;
    assert OwnerListOK(s, th0) && p !in OwnedBy(s, th0);
    assert Held(s, th0) == Nth(OwnedBy(s, th0), 0);
    assert |OwnedBy(s, th0)| > 0 ==> OwnerLinkOK(s, th0, 0);
    forall th
      ensures OwnerListOK(s', th) && 0 !in OwnedBy(s', th) && Held(s', th) == Nth(OwnedBy(s', th), 0)
    {
      assert Held(s, th) == Nth(OwnedBy(s, th), 0);
      PushedList(s, p, th);
    }
    forall q | q in s'.mem
      ensures OnOwnerList(s', q)
    {
      if q != p {
        assert OnOwnerList(s, q);
      }
    }
  }

  lemma {:induction false} PushedList(s: Lists, p: Ptr, th: Thread)
    requires OwnersOK(s, p) && HeadsOK(s, {}) && p in s.mem && p != 0
    ensures OwnerListOK(Pushed(s, p), th) && 0 !in OwnedBy(Pushed(s, p), th)
  {
    var s' := Pushed(s, p);
    var th0 := s.mem[p].lock.owner;
    assert OwnerListOK(s, th) && OwnerListOK(s, th0) && p !in OwnedBy(s, th) && p !in OwnedBy(s, th0);
    assert Held(s, th0) == Nth(OwnedBy(s, th0), 0);
    assert |OwnedBy(s, th0)| > 0 ==> OwnerLinkOK(s, th0, 0);
    forall k | 0 <= k < |OwnedBy(s', th)|
      ensures OwnerLinkOK(s', th, k)
    {
      if th == th0 {
        if k > 0 {
          assert OwnerLinkOK(s, th, k - 1);
        }
      } else {
        assert OwnerLinkOK(s, th, k);
      }
    }
    forall k | 0 <= k < |OwnedBy(s', th)|
      ensures OwnedBy(s', th)[k] != 0
    {
      assert OwnerLinkOK(s', th, k);
    }
  }

  /* ---------- taking an entry out ---------- */

  lemma {:induction false} PlaceOf(s: Lists, p: Ptr) returns (l: nat, k: nat)
    requires GlobalOK(s, 0) && p in s.mem
    ensures l == ListOf(s.mem[p].lock) && k < |s.chains[l]| && s.chains[l][k] == p && LinkOK(s, l, k)
  {
    l := ListOf(s.mem[p].lock);
    assert OnList(s, p) && ListOK(s, l);
    k :| 0 <= k < |s.chains[l]| && s.chains[l][k] == p;
    assert LinkOK(s, l, k);
  }

  /** The neighbours of the entry, or the head of its list, skip it. */
  function Skipped(s: Lists, p: Ptr, l: nat, k: nat): Lists
    requires p in s.mem && |s.heads| == |s.chains| == RANGES + 1 && l <= RANGES && k < |s.chains[l]|
    requires s.mem[p].prev != 0 ==> s.mem[p].prev in s.mem
    requires s.mem[p].next != 0 ==> s.mem[p].next in s.mem
  {
    var e := s.mem[p];
    var mem1 := if e.prev != 0 then s.mem[e.prev := s.mem[e.prev].(next := e.next)] else s.mem;
    var mem2 := if e.next != 0 then mem1[e.next := mem1[e.next].(prev := e.prev)] else mem1;
    s.(mem := mem2, heads := if e.prev == 0 then s.heads[l := e.next] else s.heads,
       chains := s.chains[l := s.chains[l][..k] + s.chains[l][k + 1..]])
  }

  lemma {:induction false} Neighbours(s: Lists, l: nat, k: nat)
    requires GlobalOK(s, 0) && l <= RANGES && k < |s.chains[l]|
    ensures var p := s.chains[l][k];
            && p != 0 && p in s.mem && LinkOK(s, l, k) && ListOK(s, l)
            && (s.mem[p].prev != 0 <==> k > 0) && (s.mem[p].next != 0 <==> k + 1 < |s.chains[l]|)
            && (s.mem[p].prev != 0 ==> s.mem[p].prev in s.mem && s.mem[p].prev == s.chains[l][k - 1] && LinkOK(s, l, k - 1))
            && (s.mem[p].next != 0 ==> s.mem[p].next in s.mem && s.mem[p].next == s.chains[l][k + 1] && LinkOK(s, l, k + 1))
  {
    assert ListOK(s, l) && LinkOK(s, l, k);
    assert k > 0 ==> LinkOK(s, l, k - 1);
    assert k + 1 < |s.chains[l]| ==> LinkOK(s, l, k + 1);
  }

  lemma {:induction false} SkippedSide(s: Lists, p: Ptr, l: nat, k: nat) returns (s': Lists)
    requires p in s.mem && |s.heads| == |s.chains| == RANGES + 1 && l == ListOf(s.mem[p].lock) && k < |s.chains[l]|
    requires s.mem[p].prev != 0 ==> s.mem[p].prev in s.mem
    requires s.mem[p].next != 0 ==> s.mem[p].next in s.mem
    requires 0 !in s.mem && Distinct(s.chains[l]) && s.chains[l][k] == p
    ensures s' == Skipped(s, p, l, k) && SameOwnerSide(s, s')
    ensures forall d :: 0 <= d <= RANGES && d != l ==> s'.chains[d] == s.chains[d]
    ensures forall q :: q != p ==> (q in s'.chains[l] <==> q in s.chains[l])
    ensures 0 !in s'.mem && |s'.heads| == |s'.chains| == RANGES + 1
  {
    s' := Skipped(s, p, l, k);
    var c, c' := s.chains[l], s'.chains[l];
    forall q | q != p && q in c
      ensures q in c'
    {
      var j :| 0 <= j < |c| && c[j] == q;
      assert c'[if j < k then j else j - 1] == q;
    }
  }

  lemma {:induction false} SkippedOK(s: Lists, p: Ptr) returns (l: nat, k: nat, s': Lists)
    requires GlobalOK(s, 0) && p in s.mem
    ensures l == ListOf(s.mem[p].lock) && k < |s.chains[l]|
    ensures s.mem[p].prev != 0 ==> s.mem[p].prev in s.mem && s.mem[p].prev != p
    ensures s.mem[p].next != 0 ==> s.mem[p].next in s.mem && s.mem[p].next != p
    ensures s' == Skipped(s, p, l, k) && GlobalOK(s', p) && SameOwnerSide(s, s')
  {
    l, k := PlaceOf(s, p);
    Neighbours(s, l, k);
    s' := SkippedSide(s, p, l, k);
    forall d | 0 <= d <= RANGES
      ensures ListOK(s', d) && p !in s'.chains[d]
    {
      SkippedList(s, p, l, k, d);
    }
    forall q | q in s'.mem && q != p
      ensures OnList(s', q)
    {
      assert OnList(s, q) && s'.mem[q].lock == s.mem[q].lock;
    }
  }

  lemma {:induction false} SkippedList(s: Lists, p: Ptr, l: nat, k: nat, d: nat)
    requires GlobalOK(s, 0) && l <= RANGES && k < |s.chains[l]| && s.chains[l][k] == p && d <= RANGES
    ensures p in s.mem && (s.mem[p].prev != 0 ==> s.mem[p].prev in s.mem) && (s.mem[p].next != 0 ==> s.mem[p].next in s.mem)
    ensures ListOK(Skipped(s, p, l, k), d) && p !in Skipped(s, p, l, k).chains[d]
  {
    Neighbours(s, l, k);
    if d == l {
      SkippedHere(s, p, l, k);
    } else {
      SkippedElsewhere(s, p, l, k, d);
    }
  }

  lemma {:induction false} SkippedHere(s: Lists, p: Ptr, l: nat, k: nat)
    requires GlobalOK(s, 0) && l <= RANGES && k < |s.chains[l]| && s.chains[l][k] == p
    requires p in s.mem && (s.mem[p].prev != 0 ==> s.mem[p].prev in s.mem) && (s.mem[p].next != 0 ==> s.mem[p].next in s.mem)
    ensures ListOK(Skipped(s, p, l, k), l) && p !in Skipped(s, p, l, k).chains[l]
  {
    Neighbours(s, l, k);
    var s' := Skipped(s, p, l, k);
    forall j | 0 <= j < |s'.chains[l]|
      ensures LinkOK(s', l, j) && s'.chains[l][j] != p
    {
      SkippedLink(s, p, l, k, j);
    }
  }

  lemma {:induction false} SkippedLink(s: Lists, p: Ptr, l: nat, k: nat, j: nat)
    requires GlobalOK(s, 0) && l <= RANGES && k < |s.chains[l]| && s.chains[l][k] == p
    requires p in s.mem && (s.mem[p].prev != 0 ==> s.mem[p].prev in s.mem) && (s.mem[p].next != 0 ==> s.mem[p].next in s.mem)
    requires j < |Skipped(s, p, l, k).chains[l]|
    ensures LinkOK(Skipped(s, p, l, k), l, j) && Skipped(s, p, l, k).chains[l][j] != p
  {
    Neighbours(s, l, k);
    Neighbours(s, l, if j >= k then j + 1 else j);
  }

  lemma {:induction false} SkippedElsewhere(s: Lists, p: Ptr, l: nat, k: nat, d: nat)
    requires GlobalOK(s, 0) && l <= RANGES && k < |s.chains[l]| && s.chains[l][k] == p && d <= RANGES && d != l
    requires p in s.mem && (s.mem[p].prev != 0 ==> s.mem[p].prev in s.mem) && (s.mem[p].next != 0 ==> s.mem[p].next in s.mem)
    ensures ListOK(Skipped(s, p, l, k), d) && p !in Skipped(s, p, l, k).chains[d]
  {
    Neighbours(s, l, k);
    var s' := Skipped(s, p, l, k);
    assert ListOK(s, d);
    forall j | 0 <= j < |s.chains[d]|
      ensures LinkOK(s', d, j) && s.chains[d][j] != p
    {
      assert LinkOK(s, d, j);
    }
  }

  /** The entry that has been taken out is freed, and its owner's list goes on behind it. */
  lemma {:induction false} Freed(s: Lists, p: Ptr, th: Thread, not: set<Thread>) returns (s': Lists)
    requires GlobalOK(s, p) && OwnersOK(s, 0) && HeadsOK(s, not) && p in s.mem && p != 0
    requires OwnedBy(s, th) != [] && OwnedBy(s, th)[0] == p && th in not
    ensures s' == s.(mem := s.mem - {p}, owned := s.owned[th := OwnedBy(s, th)[1..]])
    ensures GlobalOK(s', 0) && OwnersOK(s', 0) && HeadsOK(s', not)
    ensures s.mem[p].lock.owner == th && s.mem[p].ownerNext == Nth(OwnedBy(s', th), 0)
  {
    s' := s.(mem := s.mem - {p}, owned := s.owned[th := OwnedBy(s, th)[1..]]);
    assert OwnerListOK(s, th) && OwnerLinkOK(s, th, 0);
    forall l | 0 <= l <= RANGES
      ensures ListOK(s', l) && 0 !in s'.chains[l]
    {
      assert ListOK(s, l) && p !in s.chains[l];
      forall k | 0 <= k < |s.chains[l]|
        ensures LinkOK(s', l, k) && s.chains[l][k] != 0
      {
        assert LinkOK(s, l, k);
      }
    }
    forall u
      ensures OwnerListOK(s', u) && 0 !in OwnedBy(s', u)
      ensures u !in not ==> Held(s', u) == Nth(OwnedBy(s', u), 0)
    {
      FreedList(s, p, th, u);
      assert u !in not ==> Held(s, u) == Nth(OwnedBy(s, u), 0);
    }
    forall q | q in s'.mem
      ensures OnList(s', q) && OnOwnerList(s', q)
    {
      assert OnList(s, q) && OnOwnerList(s, q);
    }
  }

  lemma {:induction false} FreedList(s: Lists, p: Ptr, th: Thread, u: Thread)
    requires OwnersOK(s, 0) && p in s.mem && p != 0
    requires OwnedBy(s, th) != [] && OwnedBy(s, th)[0] == p
    ensures OwnerListOK(s.(mem := s.mem - {p}, owned := s.owned[th := OwnedBy(s, th)[1..]]), u)
    ensures 0 !in OwnedBy(s.(mem := s.mem - {p}, owned := s.owned[th := OwnedBy(s, th)[1..]]), u)
  {
    var s' := s.(mem := s.mem - {p}, owned := s.owned[th := OwnedBy(s, th)[1..]]);
    assert OwnerListOK(s, u) && OwnerListOK(s, th) && OwnerLinkOK(s, th, 0);
    forall k | 0 <= k < |OwnedBy(s', u)|
      ensures OwnerLinkOK(s', u, k) && OwnedBy(s', u)[k] != 0
    {
      assert OwnerLinkOK(s, u, if u == th then k + 1 else k);
    }
  }
}
