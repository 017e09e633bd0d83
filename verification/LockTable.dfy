/** The lock table: every section that the program runs under the table's mutex is one method, so that
    a run of the methods in any order, by any threads, is an interleaving of the program. */
module LockTable {
  import opened LockLists

  /* ---------- conflicts ---------- */

  function Low(k: Lock): nat {
    k.rowId
  }

  function High(k: Lock): nat {
    if k.isRange then k.rangeHigh else k.rowId
  }

  predicate Overlap(lo: nat, hi: nat, k: Lock) {
    lo <= High(k) && Low(k) <= hi
  }

  /** Another thread's lock that stands in the way of a request for lo..hi. */
  predicate Against(k: Lock, lo: nat, hi: nat, mode: Mode, self: Thread) {
    k.owner != self && Overlap(lo, hi, k) && (k.mode == X || mode == X)
  }

  ghost predicate Conflict(locks: map<Ptr, Lock>, lo: nat, hi: nat, mode: Mode, self: Thread) {
    exists p :: p in locks && Against(locks[p], lo, hi, mode, self)
  }

  /** Locks of different threads that overlap are both shared. */
  ghost predicate Safe(locks: map<Ptr, Lock>) {
    forall p, q {:trigger locks[p], locks[q]} :: p in locks && q in locks ==>
      !Against(locks[p], Low(locks[q]), High(locks[q]), locks[q].mode, locks[q].owner)
  }

  predicate Inside(id: nat, k: Lock) {
    Low(k) <= id <= High(k)
  }

  /** A held lock stands in the way of a request exactly when another thread holds it, some row lies in
      both, and not both are shared. It does not matter which of the two is held and which is asked for. */
  lemma {:induction false} AgainstMeans(k: Lock, j: Lock)
    requires Low(k) <= High(k) && Low(j) <= High(j)
    ensures Against(k, Low(j), High(j), j.mode, j.owner)
       <==> k.owner != j.owner && !(k.mode == S && j.mode == S) && exists id :: Inside(id, k) && Inside(id, j)
    ensures Against(k, Low(j), High(j), j.mode, j.owner) <==> Against(j, Low(k), High(k), k.mode, k.owner)
    ensures forall id: nat :: Inside(id, k) <==> k.rowId <= id <= if k.isRange then k.rangeHigh else k.rowId
  {
    if Overlap(Low(j), High(j), k) {
      var id := if Low(k) <= Low(j) then Low(j) else Low(k);
      assert Inside(id, k) && Inside(id, j);
    }
  }

  lemma {:induction false} GrantIsSafe(locks: map<Ptr, Lock>, p: Ptr, k: Lock)
    requires Safe(locks) && !Conflict(locks, Low(k), High(k), k.mode, k.owner)
    requires p in locks ==> locks[p].owner == k.owner
    ensures Safe(locks[p := k])
  {
    var locks' := locks[p := k];
    forall a, b | a in locks' && b in locks'
      ensures !Against(locks'[a], Low(locks'[b]), High(locks'[b]), locks'[b].mode, locks'[b].owner)
    {
      if a == p && b != p {
        assert !Against(locks[b], Low(k), High(k), k.mode, k.owner);
      } else if a != p && b == p {
        assert !Against(locks[a], Low(k), High(k), k.mode, k.owner);
      }
    }
  }

  /** What a blocked thread is asking for, and the shared lock of its own that it wants to raise, if any. */
  datatype Request = Request(lo: nat, hi: nat, isRange: bool, mode: Mode, own: Ptr)

  datatype Outcome = Granted | Blocked | TimedOut

  ghost predicate Covers(k: Lock, th: Thread, lo: nat, hi: nat, isRange: bool, mode: Mode) {
    && k.owner == th && k.isRange == isRange && Low(k) <= lo && hi <= High(k) && (k.mode == X || mode == S)
  }

  /** The thread holds a lock at least as strong as this. */
  ghost predicate Holds(locks: map<Ptr, Lock>, th: Thread, lo: nat, hi: nat, isRange: bool, mode: Mode) {
    exists p :: p in locks && Covers(locks[p], th, lo, hi, isRange, mode)
  }

  ghost predicate PointsOK(locks: map<Ptr, Lock>) {
    forall p {:trigger locks[p]} :: p in locks && !locks[p].isRange ==> locks[p].rangeHigh == 0
  }

  /** Either nothing changed, or the thread has one lock more, or one of its shared locks was raised to
      what it asked for. */
  ghost predicate Gained(locks: map<Ptr, Lock>, locks': map<Ptr, Lock>, k: Lock) {
    locks' == locks || exists p: Ptr :: p != 0 && (p in locks ==> locks[p] == k.(mode := S)) && locks' == locks[p := k]
  }

  ghost predicate OthersKept(locks: map<Ptr, Lock>, locks': map<Ptr, Lock>, th: Thread) {
    && (forall p {:trigger locks[p]} {:trigger locks'[p]} :: p in locks && locks[p].owner != th ==> p in locks' && locks'[p] == locks[p])
    && (forall p {:trigger locks[p]} {:trigger locks'[p]} :: p in locks' && locks'[p].owner != th ==> p in locks && locks[p] == locks'[p])
  }

  /** Writers among the blocked threads. */
  function WaitingWriters(waits: map<Thread, Request>): set<Thread> {
    set th | th in waits && waits[th].mode == X
  }

  ghost predicate WaitsOK(locks: map<Ptr, Lock>, waits: map<Thread, Request>) {
    forall th {:trigger waits[th]} :: th in waits ==>
      var r := waits[th];
      && (r.own != 0 ==> r.own in locks && !r.isRange && r.mode == X && locks[r.own] == Lock(r.lo, 0, false, S, th))
      && (!r.isRange ==> r.lo == r.hi)
  }

  class Table {
    /* the entries that are allocated, by address, and an address beyond them all */
    var mem: map<Ptr, Entry>
    var nextPtr: Ptr
    const buckets: array<Ptr>
    var rangeLocks: Ptr
    var waitingWriters: nat
    /* of each thread: the head of the list of what it holds, and what it is blocked on */
    var held: map<Thread, Ptr>
    var waits: map<Thread, Request>
    ghost var chains: seq<seq<Ptr>>
    ghost var owned: map<Thread, seq<Ptr>>

    ghost function Now(): Lists
      reads this`mem, this`rangeLocks, this`held, this`chains, this`owned, buckets
    {
      Lists(mem, buckets[..] + [rangeLocks], held, chains, owned)
    }

    ghost function LocksNow(): map<Ptr, Lock>
      reads this`mem
    {
      map p | p in mem :: mem[p].lock
    }

    ghost predicate Linked()
      reads this`mem, this`nextPtr, this`rangeLocks, this`held, this`chains, this`owned, buckets
    {
      buckets.Length == BUCKETS && ListsOK(Now()) && nextPtr != 0 && forall p :: p in mem ==> p < nextPtr
    }

    /** What holds whenever no thread is inside the mutex. */
    ghost predicate Valid()
      reads this, buckets
    {
      && Linked() && Safe(LocksNow()) && PointsOK(LocksNow()) && WaitsOK(LocksNow(), waits)
      && waitingWriters == |WaitingWriters(waits)|
    }

    constructor ()
      ensures Valid() && fresh(buckets) && LocksNow() == map[] && waits == map[]
    {
      mem, nextPtr, rangeLocks, waitingWriters, held, waits := map[], 1, 0, 0, map[], map[];
      buckets := new Ptr[BUCKETS](_ => 0);
      chains := seq(RANGES + 1, _ => []);
      owned := map[];
      new;
      forall l | 0 <= l <= RANGES
        ensures ListOK(Now(), l)
      {
      }
    }

    /* ---------- the conflict checks ---------- */

    /** Is there, on one of the lists, a lock of another thread in the way? */
    method ListConflict(head: Ptr, ghost l: nat, lo: nat, hi: nat, mode: Mode, self: Thread) returns (b: bool)
      requires Linked() && l <= RANGES && head == Now().heads[l]
      ensures b <==> exists p :: p in mem && ListOf(mem[p].lock) == l && Against(mem[p].lock, lo, hi, mode, self)
    {
      ghost var s := Now();
      ghost var chain := chains[l];
      NoZeros(s, l);
      var e := head;
      ghost var k: nat := 0;
      while e != 0
        invariant k <= |chain| && e == Nth(chain, k)
        invariant forall j :: 0 <= j < k ==> chain[j] in mem && !Against(mem[chain[j]].lock, lo, hi, mode, self)
        decreases |chain| - k
      {
        assert LinkOK(s, l, k);
        if Against(mem[e].lock, lo, hi, mode, self) {
          return true;
        }
        e := mem[e].next;
        k := k + 1;
      }
      forall p | p in mem && ListOf(mem[p].lock) == l
        ensures !Against(mem[p].lock, lo, hi, mode, self)
      {
        assert OnList(s, p);
      }
      b := false;
    }

    method PointConflict(rowId: nat, mode: Mode, self: Thread) returns (b: bool)
      requires Linked()
      ensures b <==> Conflict(LocksNow(), rowId, rowId, mode, self)
    {
      ghost var locks := LocksNow();
      assert Now().heads[rowId % BUCKETS] == buckets[rowId % BUCKETS] && Now().heads[RANGES] == rangeLocks;
      b := ListConflict(buckets[rowId % BUCKETS], rowId % BUCKETS, rowId, rowId, mode, self);
      if !b {
        b := ListConflict(rangeLocks, RANGES, rowId, rowId, mode, self);
      }
      if b {
        var p :| p in mem && Against(mem[p].lock, rowId, rowId, mode, self);
        assert p in locks && Against(locks[p], rowId, rowId, mode, self);
      } else {
        forall p | p in locks
          ensures !Against(locks[p], rowId, rowId, mode, self)
        {
          assert locks[p] == mem[p].lock;
          if !locks[p].isRange && locks[p].rowId == rowId {
            assert ListOf(mem[p].lock) == rowId % BUCKETS;
          }
        }
      }
    }

    method RangeConflict(lo: nat, hi: nat, mode: Mode, self: Thread) returns (b: bool)
      requires Linked()
      ensures b <==> Conflict(LocksNow(), lo, hi, mode, self)
    {
      ghost var locks := LocksNow();
      assert Now().heads[RANGES] == rangeLocks;
      b := ListConflict(rangeLocks, RANGES, lo, hi, mode, self);
      var i := 0;
      while i < BUCKETS && !b
        invariant 0 <= i <= BUCKETS
        invariant b ==> exists p :: p in mem && Against(mem[p].lock, lo, hi, mode, self)
        invariant !b ==> forall p :: p in mem && (ListOf(mem[p].lock) < i || ListOf(mem[p].lock) == RANGES) ==> !Against(mem[p].lock, lo, hi, mode, self)
        decreases BUCKETS - i, !b
      {
        assert Now().heads[i] == buckets[i];
        b := ListConflict(buckets[i], i, lo, hi, mode, self);
        i := i + 1;
      }
      if b {
        var p :| p in mem && Against(mem[p].lock, lo, hi, mode, self);
        assert p in locks && Against(locks[p], lo, hi, mode, self);
      } else {
        forall p | p in locks
          ensures !Against(locks[p], lo, hi, mode, self)
        {
          assert locks[p] == mem[p].lock;
        }
      }
    }

    /* ---------- changes to the lists ---------- */

    /** A new entry at the front of its bucket, or of the range locks. */
    method GlobalInsert(p: Ptr)
      requires buckets.Length == BUCKETS && p in mem && p != 0 && GlobalOK(Now(), p)
      modifies this`mem, this`rangeLocks, this`chains, buckets
      ensures buckets.Length == BUCKETS && Now() == Fronted(old(Now()), p)
    {
      ghost var s := Now();
      ghost var s' := FrontedOK(s, p);
      var l := ListOf(mem[p].lock);
      var h := if l == RANGES then rangeLocks else buckets[l];
      assert h == s.heads[l];
      mem := mem[p := mem[p].(prev := 0, next := h)];
      if h != 0 {
        mem := mem[h := mem[h].(prev := p)];
      }
      if l == RANGES {
        rangeLocks := p;
      } else {
        buckets[l] := p;
      }
      chains := chains[l := [p] + chains[l]];
      assert Now().heads == s'.heads;
    }

    method OwnerPush(p: Ptr)
      requires p in mem && p != 0 && 0 !in mem && OwnersOK(Now(), p) && HeadsOK(Now(), {})
      modifies this`mem, this`held, this`owned
      ensures Now() == Pushed(old(Now()), p)
    {
      ghost var s := Now();
      ghost var s' := PushedOK(s, p);
      var th := mem[p].lock.owner;
      var h := if th in held then held[th] else 0;
      mem := mem[p := mem[p].(ownerPrev := 0, ownerNext := h)];
      if h != 0 {
        mem := mem[h := mem[h].(ownerPrev := p)];
      }
      held := held[th := p];
      owned := owned[th := [p] + OwnedBy(s, th)];
      assert Now() == s';
    }

    method AddEntry(k: Lock) returns (p: Ptr)
      requires Linked()
      modifies this`mem, this`nextPtr, this`rangeLocks, this`held, this`chains, this`owned, buckets
      ensures Linked() && p !in old(mem) && p != 0 && LocksNow() == old(LocksNow())[p := k]
    {
      p := nextPtr;
      nextPtr := nextPtr + 1;
      ghost var s := Now();
      ghost var s1 := Allocated(s, p, Entry(k, 0, 0, 0, 0));
      mem := mem[p := Entry(k, 0, 0, 0, 0)];
      assert Now() == s1;
      ghost var s2 := FrontedOK(s1, p);
      GlobalInsert(p);
      OwnerSideKept(s1, s2, p, {});
      ghost var s3 := PushedOK(s2, p);
      OwnerPush(p);
      GlobalSideKept(s2, s3, 0);
      AddedKeys(s, s1, s2, s3, p, k);
    }

    /** Take an entry out of its global list. */
    method GlobalRemove(p: Ptr, ghost l: nat, ghost k: nat)
      requires buckets.Length == BUCKETS && GlobalOK(Now(), 0) && p in mem && l == ListOf(mem[p].lock) && k < |chains[l]|
      requires mem[p].prev != 0 ==> mem[p].prev in mem
      requires mem[p].next != 0 ==> mem[p].next in mem
      modifies this`mem, this`rangeLocks, this`chains, buckets
      ensures buckets.Length == BUCKETS && Now() == Skipped(old(Now()), p, l, k)
    {
      ghost var s := Now();
      ghost var s' := Skipped(s, p, l, k);
      var e := mem[p];
      if e.prev != 0 {
        mem := mem[e.prev := mem[e.prev].(next := e.next)];
      } else if e.lock.isRange {
        rangeLocks := e.next;
      } else {
        buckets[e.lock.rowId % BUCKETS] := e.next;
      }
      if e.next != 0 {
        mem := mem[e.next := mem[e.next].(prev := e.prev)];
      }
      chains := chains[l := chains[l][..k] + chains[l][k + 1..]];
      assert Now().heads == s'.heads;
      assert Now().mem == s'.mem;
    }

    /* ---------- acquiring ---------- */

    /** The test in the loop around the wait, and what follows it: the thread is blocked, or it gets a
        new lock or has its own one raised. */
    method TryPoint(th: Thread, rowId: nat, mode: Mode, own: Ptr) returns (r: Outcome, ghost p: Ptr)
      requires Valid()
      requires own != 0 ==> mode == X && own in mem && mem[own].lock == Lock(rowId, 0, false, S, th)
      requires th in waits ==> waits[th] == Request(rowId, rowId, false, mode, own)
      modifies this`mem, this`nextPtr, this`rangeLocks, this`held, this`chains, this`owned, this`waits, this`waitingWriters, buckets
      ensures Valid() && r != TimedOut
      ensures r == Blocked <==> Conflict(old(LocksNow()), rowId, rowId, mode, th) || (mode == S && old(waitingWriters) > 0)
      ensures r == Blocked ==> LocksNow() == old(LocksNow()) && waits == old(waits)[th := Request(rowId, rowId, false, mode, own)]
      ensures r == Granted ==> waits == old(waits) - {th}
      ensures r == Granted ==> p != 0 && (if own != 0 then p == own else p !in old(mem))
      ensures r == Granted ==> LocksNow() == old(LocksNow())[p := Lock(rowId, 0, false, mode, th)]
    {
      ghost var locks, waits0 := LocksNow(), waits;
      var c := PointConflict(rowId, mode, th);
      if c || (mode == S && waitingWriters > 0) {
        Wait(th, Request(rowId, rowId, false, mode, own));
        return Blocked, 0;
      }
      p := own;
      if own != 0 {
        mem := mem[own := mem[own].(lock := mem[own].lock.(mode := mode))];
        Raised(old(Now()), Now(), own);
        assert LocksNow() == locks[own := Lock(rowId, 0, false, mode, th)];
      } else {
        var ne := AddEntry(Lock(rowId, 0, false, mode, th));
        p := ne;
      }
      GrantIsSafe(locks, p, Lock(rowId, 0, false, mode, th));
      WaitsKept(locks, LocksNow(), waits0, p, th);
      StopWaiting(th);
      r := Granted;
    }

    method TryRange(th: Thread, lo: nat, hi: nat, mode: Mode) returns (r: Outcome, ghost p: Ptr)
      requires Valid() && (th in waits ==> waits[th] == Request(lo, hi, true, mode, 0))
      modifies this`mem, this`nextPtr, this`rangeLocks, this`held, this`chains, this`owned, this`waits, this`waitingWriters, buckets
      ensures Valid() && r != TimedOut
      ensures r == Blocked <==> Conflict(old(LocksNow()), lo, hi, mode, th) || (mode == S && old(waitingWriters) > 0)
      ensures r == Blocked ==> LocksNow() == old(LocksNow()) && waits == old(waits)[th := Request(lo, hi, true, mode, 0)]
      ensures r == Granted ==> waits == old(waits) - {th}
      ensures r == Granted ==> p != 0 && p !in old(mem) && LocksNow() == old(LocksNow())[p := Lock(lo, hi, true, mode, th)]
    {
      ghost var locks, waits0 := LocksNow(), waits;
      var c := RangeConflict(lo, hi, mode, th);
      if c || (mode == S && waitingWriters > 0) {
        Wait(th, Request(lo, hi, true, mode, 0));
        return Blocked, 0;
      }
      var ne := AddEntry(Lock(lo, hi, true, mode, th));
      p := ne;
      GrantIsSafe(locks, p, Lock(lo, hi, true, mode, th));
      WaitsKept(locks, LocksNow(), waits0, p, th);
      StopWaiting(th);
      r := Granted;
    }

    /** Go to sleep; a writer registers, once. */
    method Wait(th: Thread, r: Request)
      requires Valid() && (th in waits ==> waits[th] == r)
      requires WaitsOK(LocksNow(), waits[th := r])
      modifies this`waits, this`waitingWriters
      ensures Valid() && waits == old(waits)[th := r]
    {
      Registered(waits, th, r);
      if r.mode == X && th !in waits {
        waitingWriters := waitingWriters + 1;
      }
      waits := waits[th := r];
    }

    /** Stop waiting, with the lock or without; a registered writer unregisters. */
    method StopWaiting(th: Thread)
      requires Linked() && Safe(LocksNow()) && PointsOK(LocksNow()) && WaitsOK(LocksNow(), waits - {th})
      requires waitingWriters == |WaitingWriters(waits)|
      modifies this`waits, this`waitingWriters
      ensures Valid() && waits == old(waits) - {th}
    {
      Unregistered(waits, th);
      if th in waits && waits[th].mode == X {
        if waitingWriters > 0 {
          waitingWriters := waitingWriters - 1;
        }
      }
      waits := waits - {th};
    }

    /** The first section of a request for one row: a lock of the thread's own may already do, or be
        there to be raised. */
    method AcquirePoint(th: Thread, rowId: nat, mode: Mode) returns (r: Outcome)
      requires Valid() && th !in waits
      modifies this`mem, this`nextPtr, this`rangeLocks, this`held, this`chains, this`owned, this`waits, this`waitingWriters, buckets
      ensures Valid() && r != TimedOut
      ensures r == Granted ==> Holds(LocksNow(), th, rowId, rowId, false, mode) && waits == old(waits)
      ensures r == Blocked ==> LocksNow() == old(LocksNow()) && th in waits && waits == old(waits)[th := waits[th]]
      ensures r == Blocked ==> waits[th] == Request(rowId, rowId, false, mode, waits[th].own)
      ensures r == Blocked ==> Conflict(LocksNow(), rowId, rowId, mode, th) || (mode == S && old(waitingWriters) > 0)
      ensures Gained(old(LocksNow()), LocksNow(), Lock(rowId, 0, false, mode, th))
    {
      ghost var locks := LocksNow();
      ghost var l := rowId % BUCKETS;
      ghost var chain := chains[l];
      ghost var k: nat := 0;
      NoZeros(Now(), l);
      assert Now().heads[l] == buckets[l];
      var e := buckets[rowId % BUCKETS];
      while e != 0
        invariant k <= |chain| && e == Nth(chain, k)
        decreases |chain| - k
      {
        assert LinkOK(Now(), l, k);
        if mem[e].lock.rowId == rowId && mem[e].lock.owner == th {
          if mem[e].lock.mode == X || mode == S {
            assert locks[e] == mem[e].lock && Covers(locks[e], th, rowId, rowId, false, mode);
            return Granted;
          }
          break;
        }
        e := mem[e].next;
        k := k + 1;
      }
      assert e != 0 ==> locks[e] == mem[e].lock;
      ghost var p;
      r, p := TryPoint(th, rowId, mode, e);
      if r == Granted {
        assert Covers(LocksNow()[p], th, rowId, rowId, false, mode);
      }
    }

    /** A blocked request for a row is looked at again after a wake-up. */
    method ResumePoint(th: Thread) returns (r: Outcome)
      requires Valid() && th in waits && !waits[th].isRange
      modifies this`mem, this`nextPtr, this`rangeLocks, this`held, this`chains, this`owned, this`waits, this`waitingWriters, buckets
      ensures Valid() && r != TimedOut
      ensures r == Granted ==> waits == old(waits) - {th}
      ensures r == Granted ==> Holds(LocksNow(), th, old(waits)[th].lo, old(waits)[th].lo, false, old(waits)[th].mode)
      ensures r == Blocked ==> LocksNow() == old(LocksNow()) && waits == old(waits)
      ensures r == Blocked <==> Conflict(old(LocksNow()), old(waits)[th].lo, old(waits)[th].lo, old(waits)[th].mode, th)
                                || (old(waits)[th].mode == S && old(waitingWriters) > 0)
      ensures Gained(old(LocksNow()), LocksNow(), Lock(old(waits)[th].lo, 0, false, old(waits)[th].mode, th))
    {
      ghost var locks := LocksNow();
      var q := waits[th];
      ghost var p;
      r, p := TryPoint(th, q.lo, q.mode, q.own);
      if r == Granted {
        assert Covers(LocksNow()[p], th, q.lo, q.lo, false, q.mode);
      }
    }

    /** The first section of a request for a range. */
    method AcquireRange(th: Thread, lo: nat, hi: nat, mode: Mode) returns (r: Outcome)
      requires Valid() && th !in waits
      modifies this`mem, this`nextPtr, this`rangeLocks, this`held, this`chains, this`owned, this`waits, this`waitingWriters, buckets
      ensures Valid() && r != TimedOut
      ensures r == Granted ==> Holds(LocksNow(), th, lo, hi, true, mode) && waits == old(waits)
      ensures r == Blocked ==> LocksNow() == old(LocksNow()) && waits == old(waits)[th := Request(lo, hi, true, mode, 0)]
      ensures r == Blocked ==> Conflict(LocksNow(), lo, hi, mode, th) || (mode == S && old(waitingWriters) > 0)
      ensures Gained(old(LocksNow()), LocksNow(), Lock(lo, hi, true, mode, th))
    {
      ghost var locks := LocksNow();
      ghost var chain := chains[RANGES];
      ghost var k: nat := 0;
      assert ListOK(Now(), RANGES) && Now().heads[RANGES] == rangeLocks;
      var e := rangeLocks;
      while e != 0
        invariant k <= |chain| && e == Nth(chain, k)
        decreases |chain| - k
      {
        assert LinkOK(Now(), RANGES, k);
        var f := mem[e].lock;
        if f.owner == th && f.rowId <= lo && f.rangeHigh >= hi {
          if f.mode == X || mode == S {
            RangeList(f);
            assert locks[e] == f && Covers(locks[e], th, lo, hi, true, mode);
            return Granted;
          }
        }
        e := mem[e].next;
        k := k + 1;
      }
      ghost var p;
      r, p := TryRange(th, lo, hi, mode);
      if r == Granted {
        assert Covers(LocksNow()[p], th, lo, hi, true, mode);
      }
    }

    method ResumeRange(th: Thread) returns (r: Outcome)
      requires Valid() && th in waits && waits[th].isRange
      modifies this`mem, this`nextPtr, this`rangeLocks, this`held, this`chains, this`owned, this`waits, this`waitingWriters, buckets
      ensures Valid() && r != TimedOut
      ensures r == Granted ==> waits == old(waits) - {th}
      ensures r == Granted ==> Holds(LocksNow(), th, old(waits)[th].lo, old(waits)[th].hi, true, old(waits)[th].mode)
      ensures r == Blocked ==> LocksNow() == old(LocksNow()) && waits == old(waits)
      ensures r == Blocked <==> Conflict(old(LocksNow()), old(waits)[th].lo, old(waits)[th].hi, old(waits)[th].mode, th)
                                || (old(waits)[th].mode == S && old(waitingWriters) > 0)
      ensures Gained(old(LocksNow()), LocksNow(), Lock(old(waits)[th].lo, old(waits)[th].hi, true, old(waits)[th].mode, th))
    {
      ghost var locks := LocksNow();
      var q := waits[th];
      ghost var p;
      r, p := TryRange(th, q.lo, q.hi, q.mode);
      if r == Granted {
        assert Covers(LocksNow()[p], th, q.lo, q.hi, true, q.mode);
      }
    }

    /** The wait of a blocked thread runs out: it gives up and has gained nothing. */
    method TimeOut(th: Thread)
      requires Valid() && th in waits
      modifies this`waits, this`waitingWriters
      ensures Valid() && waits == old(waits) - {th}
    {
      StopWaiting(th);
    }

    /* ---------- releasing ---------- */

    /** Take the first entry of the thread's list out of its global list and free it. */
    method FreeFirst(th: Thread, e: Ptr) returns (next: Ptr)
      requires buckets.Length == BUCKETS && e != 0 && e == Nth(OwnedBy(Now(), th), 0)
      requires GlobalOK(Now(), 0) && OwnersOK(Now(), 0) && HeadsOK(Now(), {th})
      modifies this`mem, this`rangeLocks, this`chains, this`owned, buckets
      ensures buckets.Length == BUCKETS
      ensures GlobalOK(Now(), 0) && OwnersOK(Now(), 0) && HeadsOK(Now(), {th})
      ensures OwnedBy(Now(), th) == old(OwnedBy(Now(), th))[1..] && next == Nth(OwnedBy(Now(), th), 0)
      ensures mem.Keys == old(mem.Keys) - {e} && e in old(mem) && old(mem)[e].lock.owner == th
      ensures forall p :: p in mem ==> mem[p].lock == old(mem)[p].lock
    {
      ghost var s := Now();
      assert OwnerListOK(s, th) && OwnerLinkOK(s, th, 0);
      next := mem[e].ownerNext;
      ghost var l, k, s1 := SkippedOK(s, e);
      GlobalRemove(e, l, k);
      OwnerSideKept(s, s1, 0, {th});
      ghost var s2 := Freed(s1, e, th, {th});
      mem := mem - {e};
      owned := owned[th := OwnedBy(s1, th)[1..]];
      assert Now() == s2;
    }

    /** Everything the thread holds goes; nobody else loses anything. */
    method ReleaseAll(th: Thread)
      requires Valid() && th !in waits
      modifies this`mem, this`rangeLocks, this`held, this`chains, this`owned, buckets
      ensures Valid()
      ensures forall p :: p in LocksNow() <==> p in old(LocksNow()) && old(LocksNow())[p].owner != th
      ensures forall p :: p in LocksNow() ==> LocksNow()[p] == old(LocksNow())[p]
    {
      ghost var locks := LocksNow();
      var e := if th in held then held[th] else 0;
      assert LockLists.Held(Now(), th) == Nth(OwnedBy(Now(), th), 0);
      DropHead(Now(), th);
      held := held - {th};
      while e != 0
        invariant buckets.Length == BUCKETS
        invariant GlobalOK(Now(), 0) && OwnersOK(Now(), 0) && HeadsOK(Now(), {th}) && th !in held
        invariant e == Nth(OwnedBy(Now(), th), 0)
        invariant forall p :: p in mem ==> p in locks && mem[p].lock == locks[p]
        invariant forall p :: p in locks && locks[p].owner != th ==> p in mem
        decreases |OwnedBy(Now(), th)|
      {
        e := FreeFirst(th, e);
      }
      NothingLeft(Now(), th);
      Fewer(locks, LocksNow(), waits, th);
    }
  }

  lemma {:induction false} NoZeros(s: Lists, l: nat)
    requires GlobalOK(s, 0) && l <= RANGES
    ensures ListOK(s, l) && forall k :: 0 <= k < |s.chains[l]| ==> s.chains[l][k] != 0
  {
    assert ListOK(s, l);
    forall k | 0 <= k < |s.chains[l]|
      ensures s.chains[l][k] != 0
    {
      assert LinkOK(s, l, k);
    }
  }

  lemma {:induction false} RangeList(k: Lock)
    requires ListOf(k) == RANGES
    ensures k.isRange
  {
  }

  lemma {:induction false} DropHead(s: Lists, th: Thread)
    requires ListsOK(s)
    ensures var s' := s.(held := s.held - {th}); GlobalOK(s', 0) && OwnersOK(s', 0) && HeadsOK(s', {th})
  {
    var s' := s.(held := s.held - {th});
    GlobalSideKept(s, s', 0);
    forall u
      ensures OwnerListOK(s', u) && OwnedBy(s', u) == OwnedBy(s, u)
      ensures u != th ==> LockLists.Held(s', u) == LockLists.Held(s, u)
    {
      assert OwnerListOK(s, u);
      forall k | 0 <= k < |OwnedBy(s, u)|
        ensures OwnerLinkOK(s', u, k)
      {
        assert OwnerLinkOK(s, u, k);
      }
    }
    forall p | p in s'.mem
      ensures OnOwnerList(s', p)
    {
      assert OnOwnerList(s, p);
    }
  }

  lemma {:induction false} OwnedNonzero(s: Lists, th: Thread)
    requires OwnersOK(s, 0)
    ensures forall k :: 0 <= k < |OwnedBy(s, th)| ==> OwnedBy(s, th)[k] != 0
  {
    assert OwnerListOK(s, th);
    forall k | 0 <= k < |OwnedBy(s, th)|
      ensures OwnedBy(s, th)[k] != 0
    {
      assert OwnerLinkOK(s, th, k);
    }
  }

  lemma {:induction false} NothingLeft(s: Lists, th: Thread)
    requires OwnersOK(s, 0) && 0 !in s.mem && HeadsOK(s, {th}) && th !in s.held && Nth(OwnedBy(s, th), 0) == 0
    ensures HeadsOK(s, {}) && forall p :: p in s.mem ==> s.mem[p].lock.owner != th
  {
    OwnedNonzero(s, th);
    forall p | p in s.mem
      ensures s.mem[p].lock.owner != th
    {
      assert OnOwnerList(s, p);
    }
  }

  lemma {:induction false} Fewer(locks: map<Ptr, Lock>, locks': map<Ptr, Lock>, waits: map<Thread, Request>, th: Thread)
    requires Safe(locks) && PointsOK(locks) && WaitsOK(locks, waits) && th !in waits
    requires forall p :: p in locks' <==> p in locks && locks[p].owner != th
    requires forall p :: p in locks' ==> locks'[p] == locks[p]
    ensures Safe(locks') && PointsOK(locks') && WaitsOK(locks', waits)
  {
    forall p, q | p in locks' && q in locks'
      ensures !Against(locks'[p], Low(locks'[q]), High(locks'[q]), locks'[q].mode, locks'[q].owner)
    {
      assert !Against(locks[p], Low(locks[q]), High(locks[q]), locks[q].mode, locks[q].owner);
    }
  }

  lemma {:induction false} AddedKeys(s: Lists, s1: Lists, s2: Lists, s3: Lists, p: Ptr, k: Lock)
    requires p !in s.mem && s1.mem == s.mem[p := Entry(k, 0, 0, 0, 0)]
    requires Locks(s2) == Locks(s1) && Locks(s3) == Locks(s2)
    ensures Locks(s3) == Locks(s)[p := k] && s3.mem.Keys == s.mem.Keys + {p}
  {
    assert Locks(s1) == Locks(s)[p := k];
    assert s3.mem.Keys == Locks(s3).Keys && s.mem.Keys == Locks(s).Keys;
  }

  lemma {:induction false} Raised(s: Lists, s': Lists, p: Ptr)
    requires ListsOK(s) && p in s.mem && !s.mem[p].lock.isRange
    requires s' == s.(mem := s.mem[p := s.mem[p].(lock := s.mem[p].lock.(mode := X))])
    ensures ListsOK(s')
  {
    GlobalSideKept(s, s', 0);
    forall u
      ensures OwnerListOK(s', u) && OwnedBy(s', u) == OwnedBy(s, u) && LockLists.Held(s', u) == LockLists.Held(s, u)
    {
      assert OwnerListOK(s, u);
      forall k | 0 <= k < |OwnedBy(s, u)|
        ensures OwnerLinkOK(s', u, k)
      {
        assert OwnerLinkOK(s, u, k);
      }
    }
    forall q | q in s'.mem
      ensures OnOwnerList(s', q)
    {
      assert OnOwnerList(s, q);
    }
  }

  lemma {:induction false} WaitsKept(locks: map<Ptr, Lock>, locks': map<Ptr, Lock>, waits: map<Thread, Request>, p: Ptr, th: Thread)
    requires WaitsOK(locks, waits) && locks'.Keys == locks.Keys + {p} && forall q :: q in locks && q != p ==> locks'[q] == locks[q]
    requires p in locks ==> locks[p].owner == th
    ensures WaitsOK(locks', waits - {th})
  {
  }

  lemma {:induction false} Registered(waits: map<Thread, Request>, th: Thread, r: Request)
    requires th in waits ==> waits[th] == r
    ensures |WaitingWriters(waits[th := r])| == |WaitingWriters(waits)| + if r.mode == X && th !in waits then 1 else 0
  {
    if r.mode == X {
      assert WaitingWriters(waits[th := r]) == WaitingWriters(waits) + {th};
    } else {
      assert WaitingWriters(waits[th := r]) == WaitingWriters(waits);
    }
  }

  lemma {:induction false} Unregistered(waits: map<Thread, Request>, th: Thread)
    ensures |WaitingWriters(waits - {th})| == |WaitingWriters(waits)| - if th in waits && waits[th].mode == X then 1 else 0
  {
    assert WaitingWriters(waits - {th}) == WaitingWriters(waits) - {th};
  }

  /** Every request is granted or blocked without hurting what is held: other threads keep exactly the
      locks they had. */
  lemma {:induction false} GainedKeepsOthers(locks: map<Ptr, Lock>, locks': map<Ptr, Lock>, k: Lock)
    requires Gained(locks, locks', k)
    ensures OthersKept(locks, locks', k.owner)
  {
  }

  /** While a thread holds a range, in whatever mode, no other thread holds an exclusive lock on a row
      inside it, so no other thread inserts or changes a row there. */
  lemma {:induction false} RangeKeepsWritersOut(locks: map<Ptr, Lock>, th: Thread, lo: nat, hi: nat, mode: Mode, other: Thread, id: nat)
    requires Safe(locks) && Holds(locks, th, lo, hi, true, mode) && other != th && lo <= id <= hi
    ensures !Holds(locks, other, id, id, false, X)
  {
    var p :| p in locks && Covers(locks[p], th, lo, hi, true, mode);
    forall q | q in locks
      ensures !Covers(locks[q], other, id, id, false, X)
    {
      assert !Against(locks[p], Low(locks[q]), High(locks[q]), locks[q].mode, locks[q].owner);
    }
  }

  /** While a thread holds a row exclusively, no other thread holds it in any way, nor a range around it. */
  lemma {:induction false} WriterIsAlone(locks: map<Ptr, Lock>, th: Thread, id: nat, other: Thread, lo: nat, hi: nat, isRange: bool, mode: Mode)
    requires Safe(locks) && Holds(locks, th, id, id, false, X) && other != th && lo <= id <= hi
    ensures !Holds(locks, other, lo, hi, isRange, mode)
  {
    var p :| p in locks && Covers(locks[p], th, id, id, false, X);
    forall q | q in locks
      ensures !Covers(locks[q], other, lo, hi, isRange, mode)
    {
      assert !Against(locks[p], Low(locks[q]), High(locks[q]), locks[q].mode, locks[q].owner);
    }
  }
}
