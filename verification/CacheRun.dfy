/** The cache against a plain map from page ids to bytes, over arbitrary runs of calls. */
module CacheRun {
  import opened Pages
  import opened CacheState
  import opened PagerCache

  /** What a caller does: fetch a page, write through the pin it holds, say that it has written, give
      the pin back, or have everything written out. */
  datatype Op = Get(p: PageId) | Write(p: PageId, data: Bytes) | Mark(p: PageId) | Release(p: PageId) | Flush

  /** Pages as a plain map, who has how many pins, and which pages were written but not yet marked. */
  datatype Plain = Plain(pageSize: nat, pages: map<PageId, Bytes>, pins: map<PageId, nat>, touched: set<PageId>)

  function PageIn(s: Plain, p: PageId): Bytes {
    if p in s.pages then s.pages[p] else seq(s.pageSize, _ => 0)
  }

  function PinsIn(s: Plain, p: PageId): nat {
    if p in s.pins then s.pins[p] else 0
  }

  /** What the protocol asks of a caller: only a pinned page is written, marked or released; a page is
      marked before its last pin goes; and fewer pages than there are frames stay pinned. */
  predicate Legal(s: Plain, op: Op) {
    match op
    case Get(p) => p != 0 && (PinsIn(s, p) > 0 || |s.pins| < MAX_FRAMES)
    case Write(p, data) => PinsIn(s, p) > 0 && |data| == s.pageSize
    case Mark(p) => PinsIn(s, p) > 0
    case Release(p) => PinsIn(s, p) > 0 && (p in s.touched ==> PinsIn(s, p) > 1)
    case Flush => true
  }

  function Next(s: Plain, op: Op): Plain {
    match op
    case Get(p) => s.(pins := s.pins[p := PinsIn(s, p) + 1])
    case Write(p, data) => s.(pages := s.pages[p := data], touched := s.touched + {p})
    case Mark(p) => s.(touched := s.touched - {p})
    case Release(p) => if PinsIn(s, p) > 1 then s.(pins := s.pins[p := PinsIn(s, p) - 1]) else s.(pins := s.pins - {p})
    case Flush => s
  }

  function Read(s: Plain, op: Op): seq<Bytes> {
    if op.Get? then [PageIn(s, op.p)] else []
  }

  function After(s: Plain, ops: seq<Op>): Plain
    decreases |ops|
  {
    if ops == [] then s else After(Next(s, ops[0]), ops[1..])
  }

  function Reads(s: Plain, ops: seq<Op>): seq<Bytes>
    decreases |ops|
  {
    if ops == [] then [] else Read(s, ops[0]) + Reads(Next(s, ops[0]), ops[1..])
  }

  predicate AllLegal(s: Plain, ops: seq<Op>)
    decreases |ops|
  {
    ops == [] || (Legal(s, ops[0]) && AllLegal(Next(s, ops[0]), ops[1..]))
  }

  ghost predicate Agrees(c: Cache, s: Plain) {
    && c.pageSize == s.pageSize && c.touched == s.touched
    && (forall p {:trigger View(c, p)} :: p != 0 ==> View(c, p) == PageIn(s, p))
    && (forall p {:trigger Pins(c, p)} :: Pins(c, p) == PinsIn(s, p))
  }

  lemma {:induction false} PinnedMeansPins(c: Cache, p: PageId)
    requires ContentsOK(c)
    ensures Pinned(c, p) <==> Pins(c, p) > 0
    ensures Pins(c, p) > 0 ==> p != 0
  {
    if Cached(c, p) {
      var i :| Holds(c, i, p);
      ViewOf(c, i, p);
      assert FrameOK(c, i);
    }
  }

  /** The pages of the first n frames, when these are all pinned. */
  lemma {:induction false} PinnedPages(c: Cache, n: nat) returns (ps: set<PageId>)
    requires ContentsOK(c) && n <= |c.frames|
    requires forall i :: 0 <= i < n ==> c.frames[i].valid && c.frames[i].pins > 0
    ensures |ps| == n && forall p :: p in ps ==> Pins(c, p) > 0
    ensures forall p :: p in ps ==> exists i :: 0 <= i < n && Holds(c, i, p)
  {
    if n == 0 {
      ps := {};
    } else {
      var rest := PinnedPages(c, n - 1);
      var p := c.frames[n - 1].page;
      assert Holds(c, n - 1, p);
      ViewOf(c, n - 1, p);
      forall q | q in rest
        ensures q != p
      {
        var i :| 0 <= i < n - 1 && Holds(c, i, q);
        assert q == p ==> i == n - 1;
      }
      ps := rest + {p};
    }
  }

  lemma {:induction false} PinnedAtMost(c: Cache, s: Plain)
    requires CacheOK(c) && Agrees(c, s)
    requires forall i :: 0 <= i < MAX_FRAMES ==> c.frames[i].valid && c.frames[i].pins > 0
    ensures |s.pins| >= MAX_FRAMES
  {
    var ps := PinnedPages(c, MAX_FRAMES);
    Subset(ps, s.pins.Keys);
    assert |s.pins.Keys| == |s.pins|;
  }

  lemma {:induction false} Subset(a: set<PageId>, b: set<PageId>)
    requires a <= b
    ensures |a| <= |b|
  {
    if a != {} {
      var x :| x in a;
      Subset(a - {x}, b - {x});
    }
  }

  /** One call on the cache is one step of the plain map, and a fetch reads what the map holds. */
  method Perform(pager: Pager, op: Op, ghost s: Plain) returns (read: seq<Bytes>)
    requires pager.Valid() && Agrees(pager.Now(), s) && Legal(s, op) && pager.tick + 1 < U64_MAX
    modifies pager, pager.frames, pager.buckets
    ensures pager.Valid() && Agrees(pager.Now(), Next(s, op)) && read == Read(s, op)
    ensures pager.tick <= old(pager.tick) + 1
  {
    read := [];
    ghost var c := pager.Now();
    match op
    case Get(p) =>
      if forall i :: 0 <= i < MAX_FRAMES ==> c.frames[i].valid && c.frames[i].pins > 0 {
        PinnedAtMost(c, s);
      }
      PinnedMeansPins(c, p);
      var idx := pager.GetPage(p);
      assert idx >= 0;
      read := [pager.frames[idx].data];
    case Write(p, data) =>
      PinnedMeansPins(c, p);
      pager.WriteThroughPin(p, data);
    case Mark(p) =>
      PinnedMeansPins(c, p);
      pager.MarkDirty(p);
    case Release(p) =>
      pager.Unpin(p);
    case Flush =>
      pager.FlushAll();
  }

  /** Over any run of calls that keeps the protocol, the cache cannot be told from the plain map: every
      fetch reads what the map holds, whatever was evicted and flushed on the way. */
  method Run(pager: Pager, ops: seq<Op>, ghost s: Plain) returns (got: seq<Bytes>)
    requires pager.Valid() && Agrees(pager.Now(), s) && AllLegal(s, ops) && pager.tick + |ops| < U64_MAX
    modifies pager, pager.frames, pager.buckets
    ensures pager.Valid() && Agrees(pager.Now(), After(s, ops))
    ensures got == Reads(s, ops)
  {
    got := [];
    ghost var t := s;
    var n := 0;
    while n < |ops|
      invariant 0 <= n <= |ops| && pager.Valid() && Agrees(pager.Now(), t) && AllLegal(t, ops[n..])
      invariant pager.tick + (|ops| - n) < U64_MAX
      invariant After(t, ops[n..]) == After(s, ops) && got + Reads(t, ops[n..]) == Reads(s, ops)
    {
      assert ops[n..][0] == ops[n] && ops[n..][1..] == ops[n + 1..];
      var read := Perform(pager, ops[n], t);
      got := got + read;
      t := Next(t, ops[n]);
      n := n + 1;
    }
  }

  /** After such a run, closing leaves a file that reads like the map. */
  method RunAndClose(pager: Pager, ops: seq<Op>, ghost s: Plain) returns (got: seq<Bytes>)
    requires pager.Valid() && Agrees(pager.Now(), s) && AllLegal(s, ops) && pager.tick + |ops| < U64_MAX
    requires After(s, ops).touched == {}
    modifies pager, pager.frames, pager.buckets
    ensures got == Reads(s, ops)
    ensures forall p :: p != 0 ==> DiskPage(pager.Now(), p) == PageIn(After(s, ops), p)
    ensures DiskPage(pager.Now(), 0) == pager.header
  {
    got := Run(pager, ops, s);
    ghost var c := pager.Now();
    pager.FlushAll();
    forall p | p != 0
      ensures DiskPage(pager.Now(), p) == PageIn(After(s, ops), p)
    {
      assert View(c, p) == PageIn(After(s, ops), p);
    }
  }
}
