/** The page cache in place: finding, evicting, fetching, writing, flushing and unpinning. */
module PagerCache {
  import opened Pages
  import opened CacheState

  /** Only dirty bits and the file differ, and nobody sees a difference. */
  ghost predicate Flushed(c: Cache, c': Cache) {
    && |c'.frames| == |c.frames| && c'.pageSize == c.pageSize && c'.touched == c.touched
    && (forall i {:trigger c'.frames[i]} {:trigger c.frames[i]} :: 0 <= i < |c.frames| ==>
          c'.frames[i] == c.frames[i].(dirty := c'.frames[i].dirty) && (c'.frames[i].dirty ==> c.frames[i].dirty))
    && SameView(c, c') && SamePins(c, c')
  }

  /** No frame was used after the clock's present tick. */
  ghost predicate TicksUpTo(c: Cache, tick: nat) {
    forall i {:trigger c.frames[i]} :: 0 <= i < |c.frames| ==> c.frames[i].tick <= tick
  }

  /** Every frame but x was last used when it was. */
  ghost predicate TicksKept(c: Cache, c': Cache, x: int) {
    |c'.frames| == |c.frames| && forall i {:trigger c'.frames[i]} :: 0 <= i < |c.frames| && i != x ==> c'.frames[i].tick == c.frames[i].tick
  }

  lemma {:induction false} FlushOne(c: Cache, x: int) returns (c': Cache)
    requires CacheOK(c) && 0 <= x < |c.frames| && c.frames[x].valid
    ensures c' == c.(frames := c.frames[x := c.frames[x].(dirty := false)], disk := c.disk[c.frames[x].page := c.frames[x].data])
    ensures CacheOK(c') && Flushed(c, c')
  {
    c' := c.(frames := c.frames[x := c.frames[x].(dirty := false)], disk := c.disk[c.frames[x].page := c.frames[x].data]);
    var p := c.frames[x].page;
    assert Holds(c, x, p) && Holds(c', x, p) && FrameOK(c, x);
    ViewOf(c, x, p);
    assert p in c.touched ==> Pinned(c, p);
    Changed(c, c', x, p);
    SameIndex(c, c');
  }

  /** Whatever was written back was used no later than any unpinned frame that is still dirty. */
  ghost predicate OldestFirst(c: Cache, c': Cache) {
    |c'.frames| == |c.frames| &&
    forall i, j {:trigger c'.frames[i], c'.frames[j]} :: 0 <= i < |c.frames| && 0 <= j < |c.frames| ==>
      (c.frames[i].dirty && !c'.frames[i].dirty) && (c'.frames[j].valid && c'.frames[j].dirty && c'.frames[j].pins == 0) ==>
      c.frames[i].tick <= c'.frames[j].tick
  }

  /** The dirty valid frames among the first n. */
  function DirtyAmong(frames: seq<Frame>, n: nat): nat
    requires n <= |frames|
  {
    if n == 0 then 0 else DirtyAmong(frames, n - 1) + if frames[n - 1].valid && frames[n - 1].dirty then 1 else 0
  }

  lemma {:induction false} OneFewer(frames: seq<Frame>, x: nat, n: nat)
    requires x < |frames| && n <= |frames| && frames[x].valid && frames[x].dirty
    ensures DirtyAmong(frames[x := frames[x].(dirty := false)], n) == DirtyAmong(frames, n) - if x < n then 1 else 0
  {
    if n > 0 {
      OneFewer(frames, x, n - 1);
    }
  }

  class Pager {
    const pageSize: nat
    const highWater: nat
    const lowWater: nat
    const frames: array<Frame>
    const buckets: array<int>
    var tick: nat
    /** The file, by page; what lies past its end reads as zeros. */
    var disk: map<PageId, Bytes>
    /** The header page as it would be written. */
    var header: Bytes
    ghost var chains: seq<seq<int>>
    ghost var touched: set<PageId>

    ghost function Now(): Cache
      reads this, frames, buckets
    {
      Cache(frames[..], buckets[..], disk, pageSize, chains, touched)
    }

    ghost predicate Valid()
      reads this, frames, buckets
    {
      CacheOK(Now()) && |header| == pageSize && tick < U64_MAX && TicksUpTo(Now(), tick)
    }

    constructor (pageSize: nat, highWater: nat, lowWater: nat, disk: map<PageId, Bytes>, header: Bytes)
      requires |header| == pageSize && forall p :: p in disk ==> |disk[p]| == pageSize
      ensures Valid() && fresh(frames) && fresh(buckets) && tick == 0 && this.disk == disk && touched == {}
      ensures this.pageSize == pageSize && forall p :: !Cached(Now(), p)
    {
      this.pageSize, this.highWater, this.lowWater, this.disk, this.header := pageSize, highWater, lowWater, disk, header;
      frames := new Frame[MAX_FRAMES](_ => Frame(0, false, false, 0, 0, seq(pageSize, _ => 0), -1));
      buckets := new int[BUCKETS](_ => -1);
      tick := 0;
      chains := seq(BUCKETS, _ => []);
      touched := {};
      new;
      forall b | 0 <= b < BUCKETS
        ensures BucketOK(Now(), b)
      {
      }
      forall i | 0 <= i < MAX_FRAMES
        ensures FrameOK(Now(), i)
      {
      }
    }

    /* ---------- the hash index ---------- */

    method FindFrame(p: PageId) returns (idx: int)
      requires IndexOK(Now(), -1)
      ensures idx >= 0 ==> Holds(Now(), idx, p)
      ensures idx < 0 ==> idx == -1 && !Cached(Now(), p)
    {
      ghost var c := Now();
      ghost var chain := chains[Bucket(p)];
      assert BucketOK(c, Bucket(p));
      idx := buckets[Bucket(p)];
      ghost var k := 0;
      while idx >= 0
        invariant 0 <= k <= |chain| && idx == Nth(chain, k)
        invariant forall j :: 0 <= j < k ==> !Holds(c, chain[j], p)
        decreases |chain| - k
      {
        assert LinkOK(c, Bucket(p), k);
        if frames[idx].valid && frames[idx].page == p {
          return;
        }
        idx := frames[idx].next;
        k := k + 1;
      }
      ChainInRange(c, -1, Bucket(p));
      NotOnChain(c, p);
    }

    method FrameIndexInsert(idx: int)
      requires IndexOK(Now(), idx) && 0 <= idx < MAX_FRAMES && frames[idx].valid
      modifies frames, buckets, this`chains
      ensures Now() == Linked(old(Now()), idx) && IndexOK(Now(), -1)
    {
      ghost var c := Now();
      LinkedOK(c, idx);
      var b := Bucket(frames[idx].page);
      frames[idx] := frames[idx].(next := buckets[b]);
      buckets[b] := idx;
      chains := chains[b := [idx] + chains[b]];
      assert Now() == Linked(c, idx);
    }

    /** Follow the links of the bucket to the one that names the frame, and let it skip it. */
    method FrameIndexRemove(idx: int)
      requires IndexOK(Now(), -1) && 0 <= idx < MAX_FRAMES && frames[idx].valid
      modifies frames, buckets, this`chains
      ensures IndexOK(Now(), idx) && KeptBut(old(Now()), Now(), idx)
      ensures frames[idx] == old(frames[idx]).(next := -1)
    {
      ghost var c := Now();
      var b := Bucket(frames[idx].page);
      ghost var chain := chains[b];
      ghost var at := PlaceOf(c, idx);
      ghost var k: nat := 0;
      var prev, link := -1, buckets[b];
      assert BucketOK(c, b);
      ChainInRange(c, -1, b);
      while link >= 0
        invariant link >= 0 && k <= at && link == Nth(chain, k) && prev == (if k == 0 then -1 else chain[k - 1])
        invariant Now() == c
        decreases |chain| - k
      {
        assert LinkOK(c, b, k);
        if link == idx {
          ghost var c' := UnlinkedOK(c, b, k);
          var next := frames[idx].next;
          if prev < 0 {
            buckets[b] := next;
          } else {
            frames[prev] := frames[prev].(next := next);
          }
          frames[idx] := frames[idx].(next := -1);
          chains := chains[b := chain[..k] + chain[k + 1..]];
          assert Now() == c';
          return;
        }
        prev := link;
        link := frames[link].next;
        k := k + 1;
      }
      assert false;
    }

    /* ---------- eviction ---------- */

    method FirstInvalid() returns (r: int)
      requires frames.Length == MAX_FRAMES
      ensures r >= 0 ==> r < MAX_FRAMES && !frames[r].valid && forall i :: 0 <= i < r ==> frames[i].valid
      ensures r < 0 ==> r == -1 && forall i :: 0 <= i < MAX_FRAMES ==> frames[i].valid
    {
      var i := 0;
      while i < MAX_FRAMES
        invariant 0 <= i <= MAX_FRAMES && forall j :: 0 <= j < i ==> frames[j].valid
      {
        if !frames[i].valid {
          return i;
        }
        i := i + 1;
      }
      r := -1;
    }

    /** The unpinned frame that was used longest ago. */
    method OldestUnpinned() returns (best: int)
      requires frames.Length == MAX_FRAMES && forall i :: 0 <= i < MAX_FRAMES ==> frames[i].tick < U64_MAX
      ensures best >= 0 ==> best < MAX_FRAMES && frames[best].pins == 0
      ensures best >= 0 ==> forall i :: 0 <= i < MAX_FRAMES && frames[i].pins == 0 ==> frames[best].tick <= frames[i].tick
      ensures best < 0 ==> best == -1 && forall i :: 0 <= i < MAX_FRAMES ==> frames[i].pins > 0
    {
      best := -1;
      var minTick := U64_MAX;
      var i := 0;
      while i < MAX_FRAMES
        invariant 0 <= i <= MAX_FRAMES && -1 <= best < i
        invariant best >= 0 ==> frames[best].pins == 0 && frames[best].tick == minTick
        invariant best < 0 ==> minTick == U64_MAX
        invariant forall j :: 0 <= j < i && frames[j].pins == 0 ==> best >= 0 && minTick <= frames[j].tick
      {
        if frames[i].pins == 0 && frames[i].tick < minTick {
          minTick := frames[i].tick;
          best := i;
        }
        i := i + 1;
      }
    }

    /** Give up a frame: an unused one if there is one, or else the unpinned one that was used longest
        ago, after writing it back if it is dirty. A pinned frame is never given up. */
    method EvictFrame() returns (r: int)
      requires Valid()
      modifies this`disk, this`chains, frames, buckets
      ensures Valid() && touched == old(touched) && SameView(old(Now()), Now()) && SamePins(old(Now()), Now())
      ensures r < 0 ==> r == -1 && Now() == old(Now()) && forall i :: 0 <= i < MAX_FRAMES ==> frames[i].valid && frames[i].pins > 0
      ensures r >= 0 ==> r < MAX_FRAMES && !frames[r].valid && KeptBut(old(Now()), Now(), r)
      ensures TicksKept(old(Now()), Now(), -1)
      ensures r >= 0 ==> Victim(old(Now()), r)
    {
      ghost var c := Now();
      assert forall i :: 0 <= i < MAX_FRAMES ==> FrameOK(c, i) && frames[i] == c.frames[i];
      r := FirstInvalid();
      if r >= 0 {
        return;
      }
      r := OldestUnpinned();
      if r < 0 {
        return;
      }
      if frames[r].dirty {
        disk := disk[frames[r].page := frames[r].data];
        frames[r] := frames[r].(dirty := false);
      }
      ghost var c1 := Now();
      SameIndex(c, c1);
      FrameIndexRemove(r);
      ghost var c2 := Now();
      frames[r] := frames[r].(valid := false);
      ghost var c3 := Now();
      OutsideIndex(c2, r, c3.frames[r]);
      assert c3 == c2.(frames := c2.frames[r := c3.frames[r]]);
      GivenUp(c, c3, r);
    }

    /* ---------- fetching ---------- */

    /** Fetch and pin a page. The result is the frame that holds it, or -1 when every frame is pinned. */
    method GetPage(p: PageId) returns (idx: int)
      requires Valid() && p != 0 && tick + 1 < U64_MAX
      modifies this`disk, this`chains, this`tick, frames, buckets
      ensures Valid() && touched == old(touched) && tick <= old(tick) + 1
      ensures SameView(old(Now()), Now())
      ensures idx < 0 ==> idx == -1 && SamePins(old(Now()), Now()) && !Cached(old(Now()), p)
      ensures idx < 0 ==> forall i :: 0 <= i < MAX_FRAMES ==> old(frames[i].valid && frames[i].pins > 0)
      ensures idx >= 0 ==> Holds(Now(), idx, p) && frames[idx].data == View(old(Now()), p)
      ensures idx >= 0 ==> forall q :: Pins(Now(), q) == Pins(old(Now()), q) + if q == p then 1 else 0
      ensures idx >= 0 ==> frames[idx].tick == tick == old(tick) + 1 && TicksUpTo(old(Now()), old(tick)) && TicksKept(old(Now()), Now(), idx)
    {
      ghost var c := Now();
      idx := FindFrame(p);
      if idx >= 0 {
        tick := tick + 1;
        frames[idx] := frames[idx].(pins := frames[idx].pins + 1, tick := tick);
        PinnedAgain(c, Now(), idx, p);
        return;
      }
      idx := EvictFrame();
      if idx < 0 {
        return;
      }
      StillUncached(c, Now(), idx, p);
      ReadInto(idx, p);
    }

    /** Read a page from the file into a frame that was given up. */
    method ReadInto(idx: int, p: PageId)
      requires Valid() && 0 <= idx < MAX_FRAMES && !frames[idx].valid && !Cached(Now(), p)
      requires p != 0 && tick + 1 < U64_MAX
      modifies this`chains, this`tick, frames, buckets
      ensures Valid() && touched == old(touched) && tick == old(tick) + 1
      ensures SameView(old(Now()), Now()) && Holds(Now(), idx, p) && frames[idx].data == View(old(Now()), p)
      ensures forall q :: Pins(Now(), q) == Pins(old(Now()), q) + if q == p then 1 else 0
      ensures frames[idx].tick == tick && TicksKept(old(Now()), Now(), idx)
    {
      ghost var c := Now();
      tick := tick + 1;
      var data := if p in disk then disk[p] else seq(pageSize, _ => 0);
      frames[idx] := frames[idx].(page := p, valid := true, dirty := false, pins := 1, tick := tick, data := data);
      ghost var c1 := Now();
      NotIndexed(c, idx);
      OutsideIndex(c, idx, c1.frames[idx]);
      assert c1 == c.(frames := c.frames[idx := c1.frames[idx]]);
      FrameIndexInsert(idx);
      ReadIn(c, Now(), idx, p);
      ViewOf(Now(), idx, p);
    }

    /* ---------- writing ---------- */

    /** What a caller does with the pointer it was given: it writes through its pin. */
    method WriteThroughPin(p: PageId, data: Bytes)
      requires Valid() && Pinned(Now(), p) && |data| == pageSize
      modifies frames, this`touched
      ensures Valid() && touched == old(touched) + {p} && SamePins(old(Now()), Now())
      ensures forall q :: View(Now(), q) == if q == p then data else View(old(Now()), q)
      ensures TicksKept(old(Now()), Now(), -1)
    {
      ghost var c := Now();
      var idx := FindFrame(p);
      frames[idx] := frames[idx].(data := data);
      touched := touched + {p};
      Written(c, Now(), idx, p);
    }

    method CountDirty() returns (n: nat)
      requires frames.Length == MAX_FRAMES
      ensures n == DirtyAmong(frames[..], MAX_FRAMES)
    {
      n := 0;
      var i := 0;
      while i < MAX_FRAMES
        invariant 0 <= i <= MAX_FRAMES && n == DirtyAmong(frames[..], i)
      {
        if frames[i].valid && frames[i].dirty {
          n := n + 1;
        }
        i := i + 1;
      }
    }

    /** The dirty, unpinned frame that was used longest ago. */
    method OldestDirty() returns (best: int)
      requires frames.Length == MAX_FRAMES && forall i :: 0 <= i < MAX_FRAMES ==> frames[i].tick < U64_MAX
      ensures best >= 0 ==> best < MAX_FRAMES && frames[best].valid && frames[best].dirty && frames[best].pins == 0
      ensures best < 0 ==> best == -1 && forall i :: 0 <= i < MAX_FRAMES && frames[i].valid && frames[i].dirty ==> frames[i].pins > 0
      ensures best >= 0 ==> forall i :: 0 <= i < MAX_FRAMES && frames[i].valid && frames[i].dirty && frames[i].pins == 0 ==>
                frames[best].tick <= frames[i].tick
    {
      best := -1;
      var minTick := U64_MAX;
      var i := 0;
      while i < MAX_FRAMES
        invariant 0 <= i <= MAX_FRAMES && -1 <= best < i
        invariant best >= 0 ==> frames[best].valid && frames[best].dirty && frames[best].pins == 0 && frames[best].tick == minTick
        invariant best < 0 ==> minTick == U64_MAX
        invariant forall j :: 0 <= j < i && frames[j].valid && frames[j].dirty && frames[j].pins == 0 ==> best >= 0 && minTick <= frames[j].tick
      {
        if frames[i].valid && frames[i].dirty && frames[i].pins == 0 && frames[i].tick < minTick {
          minTick := frames[i].tick;
          best := i;
        }
        i := i + 1;
      }
    }

    /** Write dirty frames back, the ones used longest ago first, until at most `target` are left or
        all that are left are pinned. */
    method FlushDirty(target: nat)
      requires Valid()
      modifies frames, this`disk
      ensures Valid() && Flushed(old(Now()), Now())
      ensures DirtyAmong(frames[..], MAX_FRAMES) <= target
           || forall i :: 0 <= i < MAX_FRAMES && frames[i].valid && frames[i].dirty ==> frames[i].pins > 0
      ensures forall i :: 0 <= i < MAX_FRAMES && old(frames[i].pins) > 0 ==> frames[i] == old(frames[i])
      ensures OldestFirst(old(Now()), Now())
    {
      ghost var c0 := Now();
      var dirty := CountDirty();
      while dirty > target
        invariant Valid() && Flushed(c0, Now()) && dirty == DirtyAmong(frames[..], MAX_FRAMES)
        invariant forall i :: 0 <= i < MAX_FRAMES && c0.frames[i].pins > 0 ==> frames[i] == c0.frames[i]
        invariant OldestFirst(c0, Now())
        decreases dirty
      {
        ghost var c := Now();
        assert forall i :: 0 <= i < MAX_FRAMES ==> FrameOK(c, i) && frames[i] == c.frames[i];
        var best := OldestDirty();
        if best < 0 {
          break;
        }
        ghost var c' := FlushOne(c, best);
        OneFewer(c.frames, best, MAX_FRAMES);
        disk := disk[frames[best].page := frames[best].data];
        frames[best] := frames[best].(dirty := false);
        assert Now() == c';
        dirty := dirty - 1;
      }
    }

    /** The caller says that it has written the page. When many frames are dirty, some are written back. */
    method MarkDirty(p: PageId)
      requires Valid() && Pinned(Now(), p)
      modifies frames, this`disk, this`touched
      ensures Valid() && touched == old(touched) - {p}
      ensures SameView(old(Now()), Now()) && SamePins(old(Now()), Now())
      ensures TicksKept(old(Now()), Now(), -1)
      ensures highWater > 0 && DirtyAmong(frames[..], MAX_FRAMES) >= highWater ==>
                DirtyAmong(frames[..], MAX_FRAMES) <= lowWater
                || forall i :: 0 <= i < MAX_FRAMES && frames[i].valid && frames[i].dirty ==> frames[i].pins > 0
    {
      ghost var c := Now();
      var idx := FindFrame(p);
      if idx >= 0 {
        frames[idx] := frames[idx].(dirty := true);
      }
      touched := touched - {p};
      Marked(c, Now(), idx, p);
      if highWater > 0 {
        var n := CountDirty();
        if n >= highWater {
          FlushDirty(lowWater);
        }
      }
    }

    method Unpin(p: PageId)
      requires Valid() && (p in touched ==> Pins(Now(), p) > 1)
      modifies frames
      ensures Valid() && SameView(old(Now()), Now())
      ensures forall q :: Pins(Now(), q) == if q == p && Pins(old(Now()), q) > 0 then Pins(old(Now()), q) - 1 else Pins(old(Now()), q)
      ensures TicksKept(old(Now()), Now(), -1)
    {
      ghost var c := Now();
      var idx := FindFrame(p);
      if idx >= 0 && frames[idx].pins > 0 {
        frames[idx] := frames[idx].(pins := frames[idx].pins - 1);
        Unpinned(c, Now(), idx, p);
      } else {
        assert idx >= 0 ==> Pins(c, p) == 0 by {
          if idx >= 0 {
            ViewOf(c, idx, p);
          }
        }
      }
    }

    /** Write everything back, pinned or not, and the header. But for pages that are being written just
        now, the file then reads like the cache. */
    method FlushAll()
      requires Valid()
      modifies frames, this`disk
      ensures Valid() && (forall q :: q != 0 ==> View(Now(), q) == View(old(Now()), q)) && SamePins(old(Now()), Now())
      ensures forall p :: p != 0 && p !in touched ==> DiskPage(Now(), p) == View(Now(), p)
      ensures DiskPage(Now(), 0) == header
      ensures TicksKept(old(Now()), Now(), -1)
      ensures forall i :: 0 <= i < MAX_FRAMES ==> !(frames[i].valid && frames[i].dirty)
    {
      ghost var c0 := Now();
      var i := 0;
      while i < MAX_FRAMES
        invariant 0 <= i <= MAX_FRAMES && Valid() && Flushed(c0, Now())
        invariant forall j :: 0 <= j < i ==> !(frames[j].valid && frames[j].dirty)
      {
        if frames[i].valid && frames[i].dirty {
          ghost var c := Now();
          ghost var c' := FlushOne(c, i);
          disk := disk[frames[i].page := frames[i].data];
          frames[i] := frames[i].(dirty := false);
          assert Now() == c';
        }
        i := i + 1;
      }
      ghost var c1 := Now();
      disk := disk[0 := header];
      HeaderWritten(c1, Now());
    }
  }

  /** Which frame an eviction picks. */
  ghost predicate Victim(c: Cache, r: int)
    requires |c.frames| == MAX_FRAMES && 0 <= r < MAX_FRAMES
  {
    if exists i :: 0 <= i < MAX_FRAMES && !c.frames[i].valid
    then !c.frames[r].valid && forall i :: 0 <= i < r ==> c.frames[i].valid
    else c.frames[r].pins == 0 && forall i :: 0 <= i < MAX_FRAMES && c.frames[i].pins == 0 ==> c.frames[r].tick <= c.frames[i].tick
  }

  lemma {:induction false} StillUncached(c: Cache, c': Cache, x: int, p: PageId)
    requires !Cached(c, p) && KeptBut(c, c', x) && 0 <= x < |c'.frames| && !c'.frames[x].valid
    ensures !Cached(c', p)
  {
    forall i
      ensures !Holds(c', i, p)
    {
      assert !Holds(c, i, p);
    }
  }

  lemma {:induction false} PinnedAgain(c: Cache, c': Cache, x: int, p: PageId)
    requires CacheOK(c) && Holds(c, x, p) && x < |c'.frames| && c'.frames == c.frames[x := c'.frames[x]] && c' == c.(frames := c'.frames)
    requires c'.frames[x] == c.frames[x].(pins := c.frames[x].pins + 1, tick := c'.frames[x].tick) && c'.frames[x].tick < U64_MAX
    ensures CacheOK(c') && SameView(c, c') && c'.frames[x].data == View(c, p) && Holds(c', x, p)
    ensures forall q {:trigger Pins(c', q)} :: Pins(c', q) == Pins(c, q) + if q == p then 1 else 0
  {
    ViewOf(c, x, p);
    assert FrameOK(c, x) && Holds(c', x, p);
    SameIndex(c, c');
    Changed(c, c', x, p);
  }

  lemma {:induction false} Written(c: Cache, c': Cache, x: int, p: PageId)
    requires CacheOK(c) && Holds(c, x, p) && Pinned(c, p) && x < |c'.frames|
    requires c' == c.(frames := c.frames[x := c.frames[x].(data := c'.frames[x].data)], touched := c.touched + {p})
    requires |c'.frames[x].data| == c.pageSize
    ensures CacheOK(c') && SamePins(c, c')
    ensures forall q {:trigger View(c', q)} :: View(c', q) == if q == p then c'.frames[x].data else View(c, q)
  {
    ViewOf(c, x, p);
    assert FrameOK(c, x) && Holds(c', x, p);
    SameIndex(c, c');
    Changed(c, c', x, p);
  }

  lemma {:induction false} Marked(c: Cache, c': Cache, x: int, p: PageId)
    requires CacheOK(c) && Holds(c, x, p)
    requires c' == c.(frames := c.frames[x := c.frames[x].(dirty := true)], touched := c.touched - {p})
    ensures CacheOK(c') && SameView(c, c') && SamePins(c, c')
  {
    ViewOf(c, x, p);
    assert FrameOK(c, x) && Holds(c', x, p);
    SameIndex(c, c');
    Changed(c, c', x, p);
  }

  lemma {:induction false} Unpinned(c: Cache, c': Cache, x: int, p: PageId)
    requires CacheOK(c) && Holds(c, x, p) && c.frames[x].pins > 0 && (p in c.touched ==> Pins(c, p) > 1)
    requires c' == c.(frames := c.frames[x := c.frames[x].(pins := c.frames[x].pins - 1)])
    ensures CacheOK(c') && SameView(c, c')
    ensures forall q {:trigger Pins(c', q)} :: Pins(c', q) == if q == p then Pins(c, q) - 1 else Pins(c, q)
    ensures Pins(c, p) > 0
  {
    ViewOf(c, x, p);
    assert FrameOK(c, x) && Holds(c', x, p);
    SameIndex(c, c');
    Changed(c, c', x, p);
  }

  lemma {:induction false} HeaderWritten(c: Cache, c': Cache)
    requires CacheOK(c) && 0 in c'.disk && c' == c.(disk := c.disk[0 := c'.disk[0]]) && |c'.disk[0]| == c.pageSize
    requires forall i :: 0 <= i < |c.frames| ==> !(c.frames[i].valid && c.frames[i].dirty)
    ensures CacheOK(c') && SamePins(c, c')
    ensures forall q :: q != 0 ==> View(c', q) == View(c, q)
    ensures forall p :: p != 0 && p !in c'.touched ==> DiskPage(c', p) == View(c', p)
  {
    SameIndex(c, c');
    forall i, p
      ensures Holds(c', i, p) <==> Holds(c, i, p)
    {
    }
    forall i | 0 <= i < |c'.frames|
      ensures FrameOK(c', i)
    {
      assert FrameOK(c, i);
    }
    forall p | p in c'.touched
      ensures Pinned(c', p)
    {
      assert Pinned(c, p);
    }
    forall p
      ensures Pins(c', p) == Pins(c, p)
      ensures p != 0 ==> View(c', p) == View(c, p)
      ensures p != 0 && p !in c'.touched ==> DiskPage(c', p) == View(c', p)
    {
      if Cached(c, p) {
        var i :| Holds(c, i, p);
        assert Holds(c', i, p) && FrameOK(c', i);
        ViewOf(c, i, p);
        ViewOf(c', i, p);
      }
    }
  }
}
