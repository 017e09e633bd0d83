/** The state of the page cache: frames, the hash index over them, and the file behind them. */
module CacheState {
  import opened Pages

  const MAX_FRAMES: nat := 256
  const BUCKETS: nat := 512
  const U64_MAX: nat := 0xFFFF_FFFF_FFFF_FFFF

  /** One frame. `next` is the next frame of the same bucket, or -1. */
  datatype Frame = Frame(page: PageId, valid: bool, dirty: bool, pins: nat, tick: nat, data: Bytes, next: int)

  /** `chains` lists, for each bucket, the frames its links run through. `touched` are the pages that
      were written through a pin and have not been marked dirty since. */
  datatype Cache = Cache(
    frames: seq<Frame>,
    buckets: seq<int>,
    disk: map<PageId, Bytes>,
    pageSize: nat,
    chains: seq<seq<int>>,
    touched: set<PageId>)

  function Bucket(p: PageId): nat
    ensures Bucket(p) < BUCKETS
  {
    p % BUCKETS
  }

  /* ---------- the hash index ---------- */

  function Nth(chain: seq<int>, k: nat): int {
    if k < |chain| then chain[k] else -1
  }

  ghost predicate LinkOK(c: Cache, b: nat, k: nat)
    requires b < |c.chains| && k < |c.chains[b]|
  {
    var i := c.chains[b][k];
    && 0 <= i < |c.frames|
    && c.frames[i].valid && Bucket(c.frames[i].page) == b
    && c.frames[i].next == Nth(c.chains[b], k + 1)
  }

  ghost predicate BucketOK(c: Cache, b: nat)
    requires b < |c.chains| && b < |c.buckets|
  {
    && c.buckets[b] == Nth(c.chains[b], 0)
    && (forall j, k :: 0 <= j < k < |c.chains[b]| ==> c.chains[b][j] != c.chains[b][k])
    && (forall k {:trigger LinkOK(c, b, k)} :: 0 <= k < |c.chains[b]| ==> LinkOK(c, b, k))
  }

  ghost predicate Indexed(c: Cache, i: int)
    requires |c.chains| == BUCKETS && 0 <= i < |c.frames|
  {
    i in c.chains[Bucket(c.frames[i].page)]
  }

  /** The chains hold exactly the valid frames but x, each once. */
  ghost predicate IndexOK(c: Cache, x: int) {
    && |c.frames| == MAX_FRAMES && |c.buckets| == |c.chains| == BUCKETS
    && (forall b {:trigger BucketOK(c, b)} :: 0 <= b < BUCKETS ==> BucketOK(c, b))
    && (forall i {:trigger Indexed(c, i)} :: 0 <= i < MAX_FRAMES && i != x && c.frames[i].valid ==> Indexed(c, i))
    && (forall b {:trigger c.chains[b]} :: 0 <= b < BUCKETS ==> x !in c.chains[b])
  }

  /* ---------- what is cached ---------- */

  ghost predicate Holds(c: Cache, i: int, p: PageId) {
    0 <= i < |c.frames| && c.frames[i].valid && c.frames[i].page == p
  }

  ghost predicate Cached(c: Cache, p: PageId) {
    exists i :: Holds(c, i, p)
  }

  /** A page that was never written reads as zeros. */
  function DiskPage(c: Cache, p: PageId): Bytes {
    if p in c.disk then c.disk[p] else seq(c.pageSize, _ => 0)
  }

  /** A page as a reader gets it. */
  ghost function View(c: Cache, p: PageId): Bytes {
    if Cached(c, p) then var i :| Holds(c, i, p); c.frames[i].data else DiskPage(c, p)
  }

  ghost predicate Pinned(c: Cache, p: PageId) {
    exists i :: Holds(c, i, p) && c.frames[i].pins > 0
  }

  /** A frame that has nothing to write back agrees with the file. */
  ghost predicate FrameOK(c: Cache, i: int)
    requires 0 <= i < |c.frames|
  {
    var f := c.frames[i];
    && f.tick < U64_MAX
    && |f.data| == c.pageSize
    && (f.valid ==> f.page != 0)
    && (f.valid && !f.dirty && f.page !in c.touched ==> f.data == DiskPage(c, f.page))
  }

  ghost predicate ContentsOK(c: Cache) {
    && (forall i, j, p {:trigger Holds(c, i, p), Holds(c, j, p)} :: Holds(c, i, p) && Holds(c, j, p) ==> i == j)
    && (forall i {:trigger FrameOK(c, i)} :: 0 <= i < |c.frames| ==> FrameOK(c, i))
    && (forall p {:trigger Pinned(c, p)} :: p in c.touched ==> Pinned(c, p))
    && (forall p {:trigger c.disk[p]} :: p in c.disk ==> |c.disk[p]| == c.pageSize)
  }

  ghost predicate CacheOK(c: Cache) {
    IndexOK(c, -1) && ContentsOK(c)
  }

  /** How many pins a page has; none when it is not cached. */
  ghost function Pins(c: Cache, p: PageId): nat {
    if Cached(c, p) then var i :| Holds(c, i, p); c.frames[i].pins else 0
  }

  ghost predicate SameView(c: Cache, c': Cache) {
    forall p {:trigger View(c, p)} {:trigger View(c', p)} :: View(c', p) == View(c, p)
  }

  ghost predicate SamePins(c: Cache, c': Cache) {
    forall p {:trigger Pins(c, p)} {:trigger Pins(c', p)} :: Pins(c', p) == Pins(c, p)
  }

  lemma {:induction false} ViewOf(c: Cache, i: int, p: PageId)
    requires ContentsOK(c) && Holds(c, i, p)
    ensures View(c, p) == c.frames[i].data && Pins(c, p) == c.frames[i].pins
  {
  }

  /* ---------- changes to the index ---------- */

  /** Fields other than the link, of a frame that no chain runs through. */
  lemma {:induction false} OutsideIndex(c: Cache, x: int, f: Frame)
    requires IndexOK(c, x) && 0 <= x < MAX_FRAMES
    ensures IndexOK(c.(frames := c.frames[x := f]), if f.valid then x else -1)
  {
    var c' := c.(frames := c.frames[x := f]);
    forall b | 0 <= b < BUCKETS
      ensures BucketOK(c', b)
      ensures x !in c'.chains[b] && -1 !in c'.chains[b]
    {
      assert BucketOK(c, b);
      forall k | 0 <= k < |c.chains[b]|
        ensures LinkOK(c', b, k) && c.chains[b][k] >= 0
      {
        assert LinkOK(c, b, k);
      }
    }
    forall i | 0 <= i < MAX_FRAMES && i != x && c'.frames[i].valid
      ensures Indexed(c', i)
    {
      assert Indexed(c, i);
    }
  }

  /** A frame that keeps its page, its link and whether it is valid. */
  lemma {:induction false} SameIndex(c: Cache, c': Cache)
    requires IndexOK(c, -1)
    requires c'.chains == c.chains && c'.buckets == c.buckets && |c'.frames| == |c.frames|
    requires forall i :: 0 <= i < |c.frames| ==>
               c'.frames[i].page == c.frames[i].page && c'.frames[i].valid == c.frames[i].valid && c'.frames[i].next == c.frames[i].next
    ensures IndexOK(c', -1)
  {
    forall b | 0 <= b < BUCKETS
      ensures BucketOK(c', b)
    {
      assert BucketOK(c, b);
      forall k | 0 <= k < |c.chains[b]|
        ensures LinkOK(c', b, k)
      {
        assert LinkOK(c, b, k);
      }
    }
    forall i | 0 <= i < MAX_FRAMES && c'.frames[i].valid
      ensures Indexed(c', i)
    {
      assert Indexed(c, i);
    }
  }

  lemma {:induction false} NotIndexed(c: Cache, x: int)
    requires IndexOK(c, -1) && 0 <= x < MAX_FRAMES && !c.frames[x].valid
    ensures IndexOK(c, x)
  {
    forall b | 0 <= b < BUCKETS
      ensures x !in c.chains[b]
    {
      assert BucketOK(c, b);
      forall k | 0 <= k < |c.chains[b]|
        ensures c.chains[b][k] != x
      {
        assert LinkOK(c, b, k);
      }
    }
    forall i | 0 <= i < MAX_FRAMES && i != x && c.frames[i].valid
      ensures Indexed(c, i)
    {
    }
  }

  /** The frame goes to the front of its bucket. */
  function Linked(c: Cache, x: int): Cache
    requires 0 <= x < |c.frames| && |c.buckets| == |c.chains| == BUCKETS
  {
    var b := Bucket(c.frames[x].page);
    c.(frames := c.frames[x := c.frames[x].(next := c.buckets[b])], buckets := c.buckets[b := x],
       chains := c.chains[b := [x] + c.chains[b]])
  }

  lemma {:induction false} LinkedOK(c: Cache, x: int)
    requires IndexOK(c, x) && 0 <= x < MAX_FRAMES && c.frames[x].valid
    ensures IndexOK(Linked(c, x), -1)
  {
    var c' := Linked(c, x);
    forall b | 0 <= b < BUCKETS
      ensures BucketOK(c', b) && -1 !in c'.chains[b]
    {
      LinkedBucket(c, x, b);
    }
    forall i | 0 <= i < MAX_FRAMES && c'.frames[i].valid
      ensures Indexed(c', i)
    {
      if i != x {
        assert Indexed(c, i);
      }
    }
  }

  lemma {:induction false} LinkedBucket(c: Cache, x: int, b: nat)
    requires IndexOK(c, x) && 0 <= x < MAX_FRAMES && c.frames[x].valid && b < BUCKETS
    ensures BucketOK(Linked(c, x), b) && -1 !in Linked(c, x).chains[b]
  {
    var c' := Linked(c, x);
    assert BucketOK(c, b) && x !in c.chains[b];
    forall k | 0 <= k < |c'.chains[b]|
      ensures LinkOK(c', b, k) && c'.chains[b][k] != -1
    {
      if b == Bucket(c.frames[x].page) {
        if k > 0 {
          assert LinkOK(c, b, k - 1);
        }
      } else {
        assert LinkOK(c, b, k);
      }
    }
  }

  /** The frame at place k of bucket b is taken out: the link before it skips it. */
  function Unlinked(c: Cache, b: nat, k: nat): Cache
    requires b < |c.chains| && b < |c.buckets| && k < |c.chains[b]|
    requires forall j :: 0 <= j < |c.chains[b]| ==> 0 <= c.chains[b][j] < |c.frames|
  {
    var chain := c.chains[b];
    var x, next := chain[k], c.frames[chain[k]].next;
    var frames := if k == 0 then c.frames else c.frames[chain[k - 1] := c.frames[chain[k - 1]].(next := next)];
    c.(frames := frames[x := frames[x].(next := -1)],
       buckets := if k == 0 then c.buckets[b := next] else c.buckets,
       chains := c.chains[b := chain[..k] + chain[k + 1..]])
  }

  lemma {:induction false} ChainInRange(c: Cache, x: int, b: nat)
    requires IndexOK(c, x) && b < BUCKETS
    ensures forall j :: 0 <= j < |c.chains[b]| ==> 0 <= c.chains[b][j] < |c.frames|
  {
    assert BucketOK(c, b);
    forall j | 0 <= j < |c.chains[b]|
      ensures 0 <= c.chains[b][j] < |c.frames|
    {
      assert LinkOK(c, b, j);
    }
  }

  lemma {:induction false} UnlinkedOK(c: Cache, b: nat, k: nat) returns (c': Cache)
    requires IndexOK(c, -1) && b < BUCKETS && k < |c.chains[b]|
    ensures forall j :: 0 <= j < |c.chains[b]| ==> 0 <= c.chains[b][j] < |c.frames|
    ensures c' == Unlinked(c, b, k) && IndexOK(c', c.chains[b][k])
    ensures forall i :: 0 <= i < MAX_FRAMES ==> c'.frames[i] == c.frames[i].(next := c'.frames[i].next)
  {
    ChainInRange(c, -1, b);
    c' := Unlinked(c, b, k);
    var x := c.chains[b][k];
    assert BucketOK(c, b) && LinkOK(c, b, k);
    forall d | 0 <= d < BUCKETS
      ensures BucketOK(c', d) && x !in c'.chains[d]
    {
      UnlinkedBucket(c, b, k, d);
    }
    forall i | 0 <= i < MAX_FRAMES && i != x && c'.frames[i].valid
      ensures Indexed(c', i)
    {
      assert Indexed(c, i);
    }
  }

  lemma {:induction false} UnlinkedBucket(c: Cache, b: nat, k: nat, d: nat)
    requires IndexOK(c, -1) && b < BUCKETS && k < |c.chains[b]| && d < BUCKETS
    requires forall j :: 0 <= j < |c.chains[b]| ==> 0 <= c.chains[b][j] < |c.frames|
    ensures BucketOK(Unlinked(c, b, k), d) && c.chains[b][k] !in Unlinked(c, b, k).chains[d]
  {
    var c' := Unlinked(c, b, k);
    var x := c.chains[b][k];
    assert BucketOK(c, b) && BucketOK(c, d) && LinkOK(c, b, k);
    assert k > 0 ==> LinkOK(c, b, k - 1);
    forall j | 0 <= j < |c'.chains[d]|
      ensures LinkOK(c', d, j) && c'.chains[d][j] != x
    {
      var j0 := if d == b && j >= k then j + 1 else j;
      assert LinkOK(c, d, j0);
    }
  }

  /** A valid frame is somewhere on its chain. */
  lemma {:induction false} PlaceOf(c: Cache, i: int) returns (k: nat)
    requires IndexOK(c, -1) && 0 <= i < MAX_FRAMES && c.frames[i].valid
    ensures k < |c.chains[Bucket(c.frames[i].page)]| && c.chains[Bucket(c.frames[i].page)][k] == i
  {
    assert Indexed(c, i);
    k :| 0 <= k < |c.chains[Bucket(c.frames[i].page)]| && c.chains[Bucket(c.frames[i].page)][k] == i;
  }

  /** A page that no frame of its bucket holds is not cached. */
  lemma {:induction false} NotOnChain(c: Cache, p: PageId)
    requires IndexOK(c, -1)
    requires forall j :: 0 <= j < |c.chains[Bucket(p)]| ==> !Holds(c, c.chains[Bucket(p)][j], p)
    ensures !Cached(c, p)
  {
    forall i
      ensures !Holds(c, i, p)
    {
      if 0 <= i < MAX_FRAMES && c.frames[i].valid && c.frames[i].page == p {
        var j := PlaceOf(c, i);
        assert !Holds(c, c.chains[Bucket(p)][j], p);
      }
    }
  }

  /* ---------- changes to what is cached ---------- */

  /** Every frame but x is the same, its link aside. */
  ghost predicate KeptBut(c: Cache, c': Cache, x: int) {
    && |c'.frames| == |c.frames| && c'.pageSize == c.pageSize
    && (forall i {:trigger c'.frames[i]} {:trigger c.frames[i]} :: 0 <= i < |c.frames| && i != x ==>
          c'.frames[i] == c.frames[i].(next := c'.frames[i].next))
  }

  lemma {:induction false} HoldersKept(c: Cache, c': Cache, x: int, i: int, p: PageId)
    requires KeptBut(c, c', x) && i != x
    ensures Holds(c', i, p) <==> Holds(c, i, p)
  {
  }

  /** A frame that is written back if need be and then given up: nobody sees a difference. */
  lemma {:induction false} GivenUp(c: Cache, c': Cache, x: int)
    requires ContentsOK(c) && KeptBut(c, c', x) && 0 <= x < |c.frames| && c'.touched == c.touched
    requires c.frames[x].valid && c.frames[x].pins == 0
    requires !c'.frames[x].valid && c'.frames[x].tick == c.frames[x].tick && c'.frames[x].data == c.frames[x].data
    requires c'.disk == if c.frames[x].dirty then c.disk[c.frames[x].page := c.frames[x].data] else c.disk
    ensures ContentsOK(c') && SameView(c, c') && SamePins(c, c')
    ensures DiskPage(c', c.frames[x].page) == View(c, c.frames[x].page)
  {
    var q := c.frames[x].page;
    assert Holds(c, x, q) && FrameOK(c, x);
    ViewOf(c, x, q);
    forall i, p | Holds(c', i, p)
      ensures Holds(c, i, p) && i != x && p != q
    {
      assert i != x;
      assert Holds(c, i, p);
    }
    forall i | 0 <= i < |c'.frames|
      ensures FrameOK(c', i)
    {
      assert FrameOK(c, i);
      if i != x && c.frames[i].valid {
        assert Holds(c, i, c.frames[i].page);
      }
    }
    forall p | p in c'.touched
      ensures Pinned(c', p)
    {
      assert Pinned(c, p);
      var i :| Holds(c, i, p) && c.frames[i].pins > 0;
      assert Holds(c', i, p);
    }
    forall p
      ensures View(c', p) == View(c, p) && Pins(c', p) == Pins(c, p)
    {
      if Cached(c, p) && p != q {
        var i :| Holds(c, i, p);
        assert Holds(c', i, p);
        ViewOf(c, i, p);
        ViewOf(c', i, p);
      }
    }
  }

  /** A page that is read into a free frame reads as before. */
  lemma {:induction false} ReadIn(c: Cache, c': Cache, x: int, p: PageId)
    requires ContentsOK(c) && KeptBut(c, c', x) && 0 <= x < |c.frames| && c'.touched == c.touched && c'.disk == c.disk
    requires !c.frames[x].valid && !Cached(c, p)
    requires c'.frames[x].valid && c'.frames[x].page == p && !c'.frames[x].dirty && c'.frames[x].tick < U64_MAX
    requires c'.frames[x].data == DiskPage(c, p) && p != 0
    ensures ContentsOK(c') && SameView(c, c')
    ensures forall q {:trigger Pins(c', q)} :: Pins(c', q) == if q == p then c'.frames[x].pins else Pins(c, q)
  {
    assert |DiskPage(c, p)| == c.pageSize;
    forall i, q | Holds(c', i, q)
      ensures if i == x then q == p else Holds(c, i, q) && q != p
    {
      if i != x {
        assert Holds(c, i, q);
      }
    }
    forall i | 0 <= i < |c'.frames|
      ensures FrameOK(c', i)
    {
      assert FrameOK(c, i);
    }
    forall q | q in c'.touched
      ensures Pinned(c', q)
    {
      assert Pinned(c, q);
      var i :| Holds(c, i, q) && c.frames[i].pins > 0;
      assert Holds(c', i, q);
    }
    assert Holds(c', x, p);
    forall q
      ensures View(c', q) == View(c, q)
      ensures Pins(c', q) == if q == p then c'.frames[x].pins else Pins(c, q)
    {
      if q == p {
        ViewOf(c', x, p);
      } else if Cached(c, q) {
        var i :| Holds(c, i, q);
        assert Holds(c', i, q);
        ViewOf(c, i, q);
        ViewOf(c', i, q);
      }
    }
  }

  /** A change to the frame that holds p, to its data, its dirty bit or its pins, and perhaps to what
      is on file for p. */
  lemma {:induction false} Changed(c: Cache, c': Cache, x: int, p: PageId)
    requires ContentsOK(c) && KeptBut(c, c', x) && Holds(c, x, p) && Holds(c', x, p)
    requires c'.touched - {p} == c.touched - {p}
    requires forall q :: q != p ==> (q in c'.disk <==> q in c.disk) && DiskPage(c', q) == DiskPage(c, q)
    requires p in c'.disk ==> |c'.disk[p]| == c.pageSize
    requires FrameOK(c', x) && (p in c'.touched ==> c'.frames[x].pins > 0)
    ensures ContentsOK(c')
    ensures forall q {:trigger View(c', q)} :: View(c', q) == if q == p then c'.frames[x].data else View(c, q)
    ensures forall q {:trigger Pins(c', q)} :: Pins(c', q) == if q == p then c'.frames[x].pins else Pins(c, q)
  {
    forall i, q | i != x
      ensures Holds(c', i, q) <==> Holds(c, i, q)
    {
      HoldersKept(c, c', x, i, q);
    }
    forall i | 0 <= i < |c'.frames|
      ensures FrameOK(c', i)
    {
      assert FrameOK(c, i);
      if i != x && c.frames[i].valid {
        assert Holds(c, i, c.frames[i].page);
        assert c.frames[i].page != p;
        assert c.frames[i].page in c'.touched <==> c.frames[i].page in c.touched by {
          assert c.frames[i].page in c'.touched - {p} <==> c.frames[i].page in c.touched - {p};
        }
      }
    }
    forall q | q in c'.touched
      ensures Pinned(c', q)
    {
      if q != p {
        assert q in c.touched - {p};
        assert Pinned(c, q);
        var i :| Holds(c, i, q) && c.frames[i].pins > 0;
        assert Holds(c', i, q);
      }
    }
    forall q | q in c'.disk
      ensures |c'.disk[q]| == c'.pageSize
    {
      if q != p {
        assert DiskPage(c', q) == DiskPage(c, q);
      }
    }
    forall q
      ensures View(c', q) == if q == p then c'.frames[x].data else View(c, q)
      ensures Pins(c', q) == if q == p then c'.frames[x].pins else Pins(c, q)
    {
      if q == p {
        ViewOf(c', x, p);
      } else if Cached(c, q) {
        var i :| Holds(c, i, q);
        assert Holds(c', i, q);
        ViewOf(c, i, q);
        ViewOf(c', i, q);
      }
    }
  }
}
