/** Statements over the lock table: the order in which each takes its row locks, any number of them
    side by side in any interleaving, and why they never wait for each other in a circle. */
module Statements {
  import opened LockLists
  import opened LockTable
  import RowIds

  /** A statement on its way: the rows it locks, in this order, in what mode, and how many it has. */
  datatype Session = Session(ids: seq<nat>, mode: Mode, got: nat)

  /** A reader locks one row, a writer any number in ascending order. */
  predicate PlanOK(ids: seq<nat>, mode: Mode) {
    RowIds.Ascending(ids) && (mode == S ==> |ids| <= 1)
  }

  ghost predicate SessionOK(locks: map<Ptr, Lock>, th: Thread, s: Session) {
    && PlanOK(s.ids, s.mode) && s.got <= |s.ids|
    && forall i {:trigger HasIth(locks, th, s, i)} :: 0 <= i < s.got ==> HasIth(locks, th, s, i)
  }

  ghost predicate HasIth(locks: map<Ptr, Lock>, th: Thread, s: Session, i: nat)
    requires i < |s.ids|
  {
    LockTable.Holds(locks, th, s.ids[i], s.ids[i], false, s.mode)
  }

  /** The row is among those the statement has locked. */
  ghost predicate Took(s: Session, id: nat) {
    exists i :: 0 <= i < s.got && i < |s.ids| && s.ids[i] == id
  }

  /** The lock was taken by a statement that is still on its way. */
  ghost predicate Accounted(k: Lock, sessions: map<Thread, Session>) {
    && k.owner in sessions && !k.isRange && k.mode == sessions[k.owner].mode
    && Took(sessions[k.owner], k.rowId)
  }

  ghost predicate WaitsForNext(r: Request, s: Session) {
    s.got < |s.ids| && !r.isRange && r.lo == r.hi == s.ids[s.got] && r.mode == s.mode
  }

  ghost predicate SessionsOK(locks: map<Ptr, Lock>, waits: map<Thread, Request>, sessions: map<Thread, Session>) {
    && (forall th {:trigger sessions[th]} :: th in sessions ==> SessionOK(locks, th, sessions[th]))
    && (forall p {:trigger locks[p]} :: p in locks ==> Accounted(locks[p], sessions))
    && (forall th {:trigger waits[th]} :: th in waits ==> th in sessions && WaitsForNext(waits[th], sessions[th]))
  }

  /* ---------- no circle of waits ---------- */

  /** What keeps a blocked thread from going on: a lock of the other thread, or, for a reader, the
      other thread being a writer that waits. */
  ghost predicate WaitsFor(locks: map<Ptr, Lock>, waits: map<Thread, Request>, a: Thread, b: Thread) {
    && a in waits && a != b
    && ((exists p :: p in locks && locks[p].owner == b && Against(locks[p], waits[a].lo, waits[a].hi, waits[a].mode, a))
        || (waits[a].mode == S && b in waits && waits[b].mode == X))
  }

  /** A blocked thread that another waits for is a writer; and if that one is a writer too it asks
      for a smaller row. */
  lemma {:induction false} WaitsUpward(locks: map<Ptr, Lock>, waits: map<Thread, Request>, sessions: map<Thread, Session>, a: Thread, b: Thread)
    requires SessionsOK(locks, waits, sessions) && WaitsFor(locks, waits, a, b) && b in waits
    ensures waits[b].mode == X
    ensures waits[a].mode == X ==> waits[a].lo < waits[b].lo
  {
    assert WaitsForNext(waits[a], sessions[a]) && WaitsForNext(waits[b], sessions[b]);
    assert SessionOK(locks, b, sessions[b]);
    if p :| p in locks && locks[p].owner == b && Against(locks[p], waits[a].lo, waits[a].hi, waits[a].mode, a) {
      assert Accounted(locks[p], sessions);
    }
  }

  ghost predicate WaitPath(locks: map<Ptr, Lock>, waits: map<Thread, Request>, path: seq<Thread>) {
    forall i {:trigger path[i]} :: 0 <= i < |path| - 1 ==> WaitsFor(locks, waits, path[i], path[i + 1])
  }

  lemma {:induction false} PathAscends(locks: map<Ptr, Lock>, waits: map<Thread, Request>, sessions: map<Thread, Session>,
                                       path: seq<Thread>, n: nat)
    requires SessionsOK(locks, waits, sessions) && WaitPath(locks, waits, path) && 0 < n < |path|
    requires path[0] in waits && waits[path[0]].mode == X && forall i :: 0 <= i < |path| ==> path[i] in waits
    ensures waits[path[n]].mode == X && waits[path[0]].lo < waits[path[n]].lo
  {
    if n > 1 {
      PathAscends(locks, waits, sessions, path, n - 1);
    }
    WaitsUpward(locks, waits, sessions, path[n - 1], path[n]);
  }

  /** However many statements are under way, they never wait for one another in a circle. */
  lemma {:induction false} NoCircleOfWaits(locks: map<Ptr, Lock>, waits: map<Thread, Request>, sessions: map<Thread, Session>, path: seq<Thread>)
    requires SessionsOK(locks, waits, sessions) && |path| >= 2 && WaitPath(locks, waits, path)
    ensures path[0] != path[|path| - 1]
  {
    var n := |path| - 1;
    if path[0] == path[n] {
      forall i | 0 <= i < |path|
        ensures path[i] in waits
      {
        assert i < n ==> WaitsFor(locks, waits, path[i], path[i + 1]);
      }
      assert WaitsFor(locks, waits, path[n - 1], path[n - 1 + 1]);
      WaitsUpward(locks, waits, sessions, path[n - 1], path[n]);
      PathAscends(locks, waits, sessions, path, n);
    }
  }

  lemma {:induction false} RowsBelow(waits: map<Thread, Request>) returns (top: nat)
    ensures forall th :: th in waits ==> waits[th].lo < top
    decreases |waits|
  {
    if waits == map[] {
      top := 0;
    } else {
      var th :| th in waits;
      var rest := waits - {th};
      assert waits.Keys == rest.Keys + {th};
      assert |waits| == |waits.Keys| && |rest| == |rest.Keys|;
      top := RowsBelow(rest);
      if top <= waits[th].lo {
        top := waits[th].lo + 1;
      }
      forall u | u in waits
        ensures waits[u].lo < top
      {
        assert u != th ==> u in rest;
      }
    }
  }

  /** From any statement, following whom it waits for ends at one that waits for nobody. */
  lemma {:induction false} Follow(locks: map<Ptr, Lock>, waits: map<Thread, Request>, sessions: map<Thread, Session>, a: Thread, top: nat)
    returns (w: Thread)
    requires SessionsOK(locks, waits, sessions) && a in sessions && forall th :: th in waits ==> waits[th].lo < top
    ensures w in sessions && forall b :: !WaitsFor(locks, waits, w, b)
    decreases if a !in waits then 0 else if waits[a].mode == X then top - waits[a].lo else top + 1
  {
    if b :| WaitsFor(locks, waits, a, b) {
      if b in waits {
        WaitsUpward(locks, waits, sessions, a, b);
      } else {
        var p :| p in locks && locks[p].owner == b;
        assert Accounted(locks[p], sessions);
      }
      w := Follow(locks, waits, sessions, b, top);
    } else {
      w := a;
    }
  }

  /** As long as there are statements, one of them is not kept from going on. */
  lemma {:induction false} SomeoneRuns(locks: map<Ptr, Lock>, waits: map<Thread, Request>, sessions: map<Thread, Session>)
    requires SessionsOK(locks, waits, sessions) && sessions != map[]
    ensures exists w :: w in sessions && forall b :: !WaitsFor(locks, waits, w, b)
  {
    var a :| a in sessions;
    var top := RowsBelow(waits);
    var w := Follow(locks, waits, sessions, a, top);
  }

  /* ---------- the steps of the statements ---------- */

  datatype Step =
    | Begin(th: Thread, ids: seq<nat>, mode: Mode)
    | Next(th: Thread)
    | Wake(th: Thread)
    | GiveUp(th: Thread)
    | Finish(th: Thread)

  lemma {:induction false} LockGained(locks: map<Ptr, Lock>, locks': map<Ptr, Lock>, waits: map<Thread, Request>, sessions: map<Thread, Session>, th: Thread)
    requires SessionsOK(locks, waits, sessions) && th in sessions && sessions[th].got < |sessions[th].ids|
    requires Gained(locks, locks', Lock(sessions[th].ids[sessions[th].got], 0, false, sessions[th].mode, th))
    requires LockTable.Holds(locks', th, sessions[th].ids[sessions[th].got], sessions[th].ids[sessions[th].got], false, sessions[th].mode)
    ensures SessionsOK(locks', waits - {th}, sessions[th := sessions[th].(got := sessions[th].got + 1)])
  {
    var s := sessions[th];
    var s' := s.(got := s.got + 1);
    var sessions' := sessions[th := s'];
    var k := Lock(s.ids[s.got], 0, false, s.mode, th);
    assert HasIth(locks', th, s, s.got);
    forall u | u in sessions'
      ensures SessionOK(locks', u, sessions'[u])
    {
      assert SessionOK(locks, u, sessions[u]);
      StillOK(locks, locks', k, u, sessions[u]);
      if u == th {
        forall i | 0 <= i < s'.got
          ensures HasIth(locks', th, s', i)
        {
          assert HasIth(locks', th, s, i);
        }
      }
    }
    forall p | p in locks'
      ensures Accounted(locks'[p], sessions')
    {
      if p in locks && locks'[p] == locks[p] {
        assert Accounted(locks[p], sessions);
        TookMore(s, locks[p].rowId);
      } else {
        assert locks'[p] == k && s'.ids[s.got] == k.rowId;
      }
    }
  }

  lemma {:induction false} TookMore(s: Session, id: nat)
    ensures Took(s, id) ==> Took(s.(got := s.got + 1), id)
  {
    if Took(s, id) {
      var i :| 0 <= i < s.got && i < |s.ids| && s.ids[i] == id;
      assert s.(got := s.got + 1).ids[i] == id;
    }
  }

  lemma {:induction false} StillOK(locks: map<Ptr, Lock>, locks': map<Ptr, Lock>, k: Lock, th: Thread, s: Session)
    requires Gained(locks, locks', k) && SessionOK(locks, th, s)
    ensures SessionOK(locks', th, s)
  {
    forall i | 0 <= i < s.got
      ensures HasIth(locks', th, s, i)
    {
      assert HasIth(locks, th, s, i);
      StillHolds(locks, locks', k, th, s.ids[i], s.mode);
    }
  }

  lemma {:induction false} StillHolds(locks: map<Ptr, Lock>, locks': map<Ptr, Lock>, k: Lock, th: Thread, id: nat, mode: Mode)
    requires Gained(locks, locks', k) && LockTable.Holds(locks, th, id, id, false, mode)
    ensures LockTable.Holds(locks', th, id, id, false, mode)
  {
    var p :| p in locks && Covers(locks[p], th, id, id, false, mode);
    assert p in locks' && Covers(locks'[p], th, id, id, false, mode);
  }

  lemma {:induction false} AllReleased(locks: map<Ptr, Lock>, locks': map<Ptr, Lock>, waits: map<Thread, Request>, sessions: map<Thread, Session>, th: Thread)
    requires SessionsOK(locks, waits, sessions) && th !in waits
    requires forall p :: p in locks' <==> p in locks && locks[p].owner != th
    requires forall p :: p in locks' ==> locks'[p] == locks[p]
    ensures SessionsOK(locks', waits, sessions - {th})
  {
    var sessions' := sessions - {th};
    forall u | u in sessions'
      ensures SessionOK(locks', u, sessions'[u])
    {
      var s := sessions[u];
      assert SessionOK(locks, u, s);
      forall i | 0 <= i < s.got
        ensures HasIth(locks', u, s, i)
      {
        assert HasIth(locks, u, s, i);
        var p :| p in locks && Covers(locks[p], u, s.ids[i], s.ids[i], false, s.mode);
        assert p in locks' && Covers(locks'[p], u, s.ids[i], s.ids[i], false, s.mode);
      }
    }
    forall p | p in locks'
      ensures Accounted(locks'[p], sessions')
    {
      assert Accounted(locks[p], sessions);
    }
  }

  lemma {:induction false} NowWaits(locks: map<Ptr, Lock>, waits: map<Thread, Request>, waits': map<Thread, Request>, sessions: map<Thread, Session>, th: Thread)
    requires SessionsOK(locks, waits, sessions) && th in sessions && th in waits' && waits' == waits[th := waits'[th]]
    requires WaitsForNext(waits'[th], sessions[th])
    ensures SessionsOK(locks, waits', sessions)
  {
  }

  ghost predicate HoldsNothing(locks: map<Ptr, Lock>, th: Thread) {
    forall p :: p in locks ==> locks[p].owner != th
  }

  /** The statement has its next row, or it waits, for a thread that keeps it from going on, and
      nothing else has changed. */
  ghost predicate Advanced(sessions: map<Thread, Session>, waits: map<Thread, Request>, locks: map<Ptr, Lock>,
                           sessions': map<Thread, Session>, waits': map<Thread, Request>, locks': map<Ptr, Lock>, th: Thread) {
    th in sessions &&
    if th in waits' then
      && sessions' == sessions && locks' == locks && waits' == waits[th := waits'[th]] && (th in waits ==> waits' == waits)
      && exists b :: WaitsFor(locks', waits', th, b)
    else sessions' == sessions[th := sessions[th].(got := sessions[th].got + 1)] && waits' == waits - {th}
  }

  /** A step that can be taken now. */
  predicate Enabled(sessions: map<Thread, Session>, waits: map<Thread, Request>, step: Step) {
    var th := step.th;
    match step
    case Begin(_, ids, mode) => th !in sessions && PlanOK(ids, mode)
    case Next(_) => th in sessions && th !in waits && sessions[th].got < |sessions[th].ids|
    case Wake(_) => th in waits
    case GiveUp(_) => th in waits && th in sessions
    case Finish(_) => th in sessions && th !in waits
  }

  /** What a step does; a thread that is woken while nobody keeps it from going on has its row. */
  ghost predicate Stepped(sessions: map<Thread, Session>, waits: map<Thread, Request>, locks: map<Ptr, Lock>,
                          sessions': map<Thread, Session>, waits': map<Thread, Request>, locks': map<Ptr, Lock>, step: Step) {
    var th := step.th;
    if !Enabled(sessions, waits, step) then sessions' == sessions && waits' == waits && locks' == locks
    else
      match step
      case Begin(_, ids, mode) => sessions' == sessions[th := Session(ids, mode, 0)] && waits' == waits && locks' == locks
      case Next(_) => Advanced(sessions, waits, locks, sessions', waits', locks', th)
      case Wake(_) =>
        && Advanced(sessions, waits, locks, sessions', waits', locks', th)
        && ((forall b :: !WaitsFor(locks, waits, th, b)) ==> th !in waits')
      case GiveUp(_) =>
        sessions' == sessions[th := sessions[th].(ids := GotIds(sessions[th]))] && waits' == waits - {th} && locks' == locks
      case Finish(_) => sessions' == sessions - {th} && waits' == waits && HoldsNothing(locks', th)
  }

  /** The rows a statement has locked. */
  function GotIds(s: Session): seq<nat> {
    if s.got <= |s.ids| then s.ids[..s.got] else s.ids
  }

  ghost function AfterReply(sessions: map<Thread, Session>, th: Thread, r: Outcome): map<Thread, Session> {
    if r == Granted && th in sessions then sessions[th := sessions[th].(got := sessions[th].got + 1)] else sessions
  }

  /** What the answer to a request means for the statements. */
  ghost predicate Reply(sessions: map<Thread, Session>, waits: map<Thread, Request>, locks: map<Ptr, Lock>,
                        waits': map<Thread, Request>, locks': map<Ptr, Lock>, th: Thread, r: Outcome) {
    && SessionsOK(locks', waits', AfterReply(sessions, th, r)) && OthersKept(locks, locks', th)
    && Advanced(sessions, waits, locks, AfterReply(sessions, th, r), waits', locks', th)
  }

  /** A thread that is blocked waits for some other thread. */
  lemma {:induction false} SomeoneInTheWay(locks: map<Ptr, Lock>, waits: map<Thread, Request>, waits': map<Thread, Request>, th: Thread) returns (b: Thread)
    requires th in waits' && waits' == waits[th := waits'[th]] && (th in waits ==> waits' == waits)
    requires Conflict(locks, waits'[th].lo, waits'[th].hi, waits'[th].mode, th) || (waits'[th].mode == S && |WaitingWriters(waits)| > 0)
    ensures WaitsFor(locks, waits', th, b)
  {
    if Conflict(locks, waits'[th].lo, waits'[th].hi, waits'[th].mode, th) {
      var p :| p in locks && Against(locks[p], waits'[th].lo, waits'[th].hi, waits'[th].mode, th);
      b := locks[p].owner;
    } else {
      b :| b in WaitingWriters(waits);
      assert b in waits && waits[b].mode == X;
    }
  }

  /** The answer to a request, be it the first or after a wake-up. */
  lemma {:induction false} Answered(locks: map<Ptr, Lock>, locks': map<Ptr, Lock>, waits: map<Thread, Request>, waits': map<Thread, Request>,
                 sessions: map<Thread, Session>, th: Thread, r: Outcome)
    requires SessionsOK(locks, waits, sessions) && th in sessions && sessions[th].got < |sessions[th].ids|
    requires Gained(locks, locks', Lock(sessions[th].ids[sessions[th].got], 0, false, sessions[th].mode, th))
    requires r == Granted ==> waits' == waits - {th}
    requires r == Granted ==> LockTable.Holds(locks', th, sessions[th].ids[sessions[th].got], sessions[th].ids[sessions[th].got], false, sessions[th].mode)
    requires r != Granted ==> locks' == locks && th in waits' && waits' == waits[th := waits'[th]] && WaitsForNext(waits'[th], sessions[th])
    requires r != Granted ==> th in waits ==> waits' == waits
    requires r != Granted ==>
               (Conflict(locks, waits'[th].lo, waits'[th].hi, waits'[th].mode, th) || (waits'[th].mode == S && |WaitingWriters(waits)| > 0))
    ensures Reply(sessions, waits, locks, waits', locks', th, r)
  {
    GainedKeepsOthers(locks, locks', Lock(sessions[th].ids[sessions[th].got], 0, false, sessions[th].mode, th));
    if r == Granted {
      LockGained(locks, locks', waits, sessions, th);
    } else {
      NowWaits(locks, waits, waits', sessions, th);
      var b := SomeoneInTheWay(locks, waits, waits', th);
    }
  }

  class Sessions {
    const table: Table
    var sessions: map<Thread, Session>

    ghost predicate Valid()
      reads this, table, table.buckets
    {
      table.Valid() && SessionsOK(table.LocksNow(), table.waits, sessions)
    }

    constructor ()
      ensures Valid() && fresh(table) && fresh(table.buckets)
    {
      table := new Table();
      sessions := map[];
    }

    /** One step of one thread, if it can take it. No other thread gains or loses a lock by it. */
    method Do(step: Step)
      requires Valid()
      modifies this, table, table.buckets
      ensures Valid() && OthersKept(old(table.LocksNow()), table.LocksNow(), step.th)
      ensures Stepped(old(sessions), old(table.waits), old(table.LocksNow()), sessions, table.waits, table.LocksNow(), step)
    {
      var th := step.th;
      match step
      case Begin(_, ids, mode) =>
        if th !in sessions && PlanOK(ids, mode) {
          sessions := sessions[th := Session(ids, mode, 0)];
        }
      case Next(_) =>
        if th in sessions && th !in table.waits && sessions[th].got < |sessions[th].ids| {
          AcquireNext(th);
        }
      case Wake(_) =>
        if th in table.waits {
          Resume(th);
        }
      case GiveUp(_) =>
        if th in table.waits {
          GiveUpWaiting(th);
        }
      case Finish(_) =>
        if th in sessions && th !in table.waits {
          FinishStatement(th);
        }
    }

    /** Put the request to the table. */
    method Ask(th: Thread) returns (r: Outcome)
      requires Valid() && th in sessions && th !in table.waits && sessions[th].got < |sessions[th].ids|
      modifies table, table.buckets
      ensures table.Valid() && Reply(sessions, old(table.waits), old(table.LocksNow()), table.waits, table.LocksNow(), th, r)
    {
      var s := sessions[th];
      ghost var locks, waits := table.LocksNow(), table.waits;
      r := table.AcquirePoint(th, s.ids[s.got], s.mode);
      Answered(locks, table.LocksNow(), waits, table.waits, sessions, th, r);
    }

    method AskAgain(th: Thread) returns (r: Outcome)
      requires Valid() && th in table.waits
      modifies table, table.buckets
      ensures table.Valid() && Reply(sessions, old(table.waits), old(table.LocksNow()), table.waits, table.LocksNow(), th, r)
    {
      ghost var locks, waits := table.LocksNow(), table.waits;
      assert WaitsForNext(waits[th], sessions[th]);
      r := table.ResumePoint(th);
      Answered(locks, table.LocksNow(), waits, table.waits, sessions, th, r);
    }

    /** Note that a row has been locked. */
    method Record(th: Thread, r: Outcome, ghost waits: map<Thread, Request>, ghost locks: map<Ptr, Lock>)
      requires table.Valid() && Reply(sessions, waits, locks, table.waits, table.LocksNow(), th, r) && th in sessions
      modifies this`sessions
      ensures Valid() && OthersKept(locks, table.LocksNow(), th)
      ensures Advanced(old(sessions), waits, locks, sessions, table.waits, table.LocksNow(), th)
    {
      if r == Granted {
        sessions := sessions[th := sessions[th].(got := sessions[th].got + 1)];
      }
    }

    /** Ask for the next row: it is locked, or the thread now waits. */
    method AcquireNext(th: Thread)
      requires Valid() && th in sessions && th !in table.waits && sessions[th].got < |sessions[th].ids|
      modifies this, table, table.buckets
      ensures Valid() && OthersKept(old(table.LocksNow()), table.LocksNow(), th)
      ensures Advanced(old(sessions), old(table.waits), old(table.LocksNow()), sessions, table.waits, table.LocksNow(), th)
    {
      ghost var locks, waits := table.LocksNow(), table.waits;
      var r := Ask(th);
      Record(th, r, waits, locks);
    }

    /** Look again after a wake-up. */
    method Resume(th: Thread)
      requires Valid() && th in table.waits
      modifies this, table, table.buckets
      ensures Valid() && OthersKept(old(table.LocksNow()), table.LocksNow(), th)
      ensures Advanced(old(sessions), old(table.waits), old(table.LocksNow()), sessions, table.waits, table.LocksNow(), th)
    {
      ghost var locks, waits := table.LocksNow(), table.waits;
      var r := AskAgain(th);
      Record(th, r, waits, locks);
    }

    /** The wait has run out: the statement asks for nothing more. */
    method GiveUpWaiting(th: Thread)
      requires Valid() && th in table.waits
      modifies this, table`waits, table`waitingWriters
      ensures Valid() && table.waits == old(table.waits) - {th} && table.LocksNow() == old(table.LocksNow())
      ensures th in old(sessions) && sessions == old(sessions)[th := old(sessions)[th].(ids := old(sessions)[th].ids[..old(sessions)[th].got])]
    {
      var s := sessions[th];
      Truncated(table.LocksNow(), table.waits, sessions, th);
      table.TimeOut(th);
      sessions := sessions[th := s.(ids := s.ids[..s.got])];
    }

    /** The statement ends and releases everything. */
    method FinishStatement(th: Thread)
      requires Valid() && th in sessions && th !in table.waits
      modifies this, table`mem, table`rangeLocks, table`held, table`chains, table`owned, table.buckets
      ensures Valid() && sessions == old(sessions) - {th} && table.waits == old(table.waits)
      ensures OthersKept(old(table.LocksNow()), table.LocksNow(), th) && HoldsNothing(table.LocksNow(), th)
    {
      ghost var locks := table.LocksNow();
      table.ReleaseAll(th);
      AllReleased(locks, table.LocksNow(), table.waits, sessions, th);
      sessions := sessions - {th};
    }

    /** Any interleaving of any statements: whatever steps are taken in whatever order, locks of
        different threads that overlap are shared and no circle of waits comes about. */
    method Interleave(steps: seq<Step>)
      requires Valid()
      modifies this, table, table.buckets
      ensures Valid() && Safe(table.LocksNow())
      ensures forall path: seq<Thread> :: |path| >= 2 && WaitPath(table.LocksNow(), table.waits, path) ==> path[0] != path[|path| - 1]
    {
      var n := 0;
      while n < |steps|
        invariant 0 <= n <= |steps| && Valid()
      {
        Do(steps[n]);
        n := n + 1;
      }
      forall path: seq<Thread> | |path| >= 2 && WaitPath(table.LocksNow(), table.waits, path)
        ensures path[0] != path[|path| - 1]
      {
        NoCircleOfWaits(table.LocksNow(), table.waits, sessions, path);
      }
    }
  }

  lemma {:induction false} Truncated(locks: map<Ptr, Lock>, waits: map<Thread, Request>, sessions: map<Thread, Session>, th: Thread)
    requires SessionsOK(locks, waits, sessions) && th in sessions
    ensures SessionsOK(locks, waits - {th}, sessions[th := sessions[th].(ids := sessions[th].ids[..sessions[th].got])])
  {
    var s := sessions[th];
    assert SessionOK(locks, th, s);
    var s' := s.(ids := s.ids[..s.got]);
    var sessions' := sessions[th := s'];
    forall i | 0 <= i < s'.got
      ensures HasIth(locks, th, s', i)
    {
      assert HasIth(locks, th, s, i);
    }
    forall u | u in sessions'
      ensures SessionOK(locks, u, sessions'[u])
    {
      assert SessionOK(locks, u, sessions[u]);
    }
    forall p | p in locks
      ensures Accounted(locks[p], sessions')
    {
      assert Accounted(locks[p], sessions);
      TookCut(s, locks[p].rowId);
    }
  }

  lemma {:induction false} TookCut(s: Session, id: nat)
    requires s.got <= |s.ids|
    ensures Took(s, id) ==> Took(s.(ids := s.ids[..s.got]), id)
  {
    if Took(s, id) {
      var i :| 0 <= i < s.got && i < |s.ids| && s.ids[i] == id;
      assert s.ids[..s.got][i] == id;
    }
  }
}
