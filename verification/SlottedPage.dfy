/** One heap page: a directory of slots that grows from the front and rows that grow from the
    back, and the chain of free slots that runs through the directory. */
module SlottedPage {
  import opened Pages

  const SLOT_NONE: nat := 0xFFFF
  const U16: nat := 0x1_0000

  /** What the pages of one table have in common. */
  datatype Format = Format(pageSize: nat, rowSize: nat)

  /* ---------- the chain of free slots ---------- */

  function NextSlot(chain: seq<nat>, i: nat): nat {
    if i < |chain| then chain[i] else SLOT_NONE
  }

  ghost predicate SlotLink(slots: seq<Slot>, chain: seq<nat>, i: nat)
    requires i < |chain|
  {
    chain[i] < |slots| && !slots[chain[i]].alive && slots[chain[i]].nextFree == NextSlot(chain, i + 1)
  }

  /** The chain names every free slot, once, and nothing else. */
  ghost predicate FreeChain(slots: seq<Slot>, head: nat, chain: seq<nat>) {
    && head == NextSlot(chain, 0)
    && (forall i, j :: 0 <= i < j < |chain| ==> chain[i] != chain[j])
    && (forall i {:trigger SlotLink(slots, chain, i)} :: 0 <= i < |chain| ==> SlotLink(slots, chain, i))
    && (forall s :: 0 <= s < |slots| && !slots[s].alive ==> s in chain)
  }

  /* ---------- the page ---------- */

  /** Slot s owns the s-th extent from the back of the page, for good. */
  ghost predicate ExtentOK(fm: Format, slots: seq<Slot>, s: nat)
    requires s < |slots|
  {
    slots[s].offset == fm.pageSize - (s + 1) * fm.rowSize
  }

  ghost predicate PageOK(fm: Format, body: Slotted) {
    && |body.bytes| == fm.pageSize
    && body.used == |body.slots| * fm.rowSize
    && 16 + 8 * |body.slots| + body.used <= fm.pageSize
    && |body.slots| < SLOT_NONE
    && (forall s {:trigger ExtentOK(fm, body.slots, s)} :: 0 <= s < |body.slots| ==> ExtentOK(fm, body.slots, s))
    && (exists chain :: FreeChain(body.slots, body.freeHead, chain))
  }

  lemma {:induction false} TimesMonotone(i: nat, j: nat, r: nat)
    requires i <= j
    ensures i * r <= j * r
  {
  }

  /** A row lies behind the slot directory and inside the page. */
  lemma {:induction false} ExtentInside(fm: Format, body: Slotted, s: nat)
    requires PageOK(fm, body) && s < |body.slots|
    ensures 16 + 8 * |body.slots| <= body.slots[s].offset
    ensures body.slots[s].offset + fm.rowSize + s * fm.rowSize == |body.bytes|
  {
    assert ExtentOK(fm, body.slots, s);
    TimesMonotone(s + 1, |body.slots|, fm.rowSize);
    assert (s + 1) * fm.rowSize == s * fm.rowSize + fm.rowSize;
  }

  /** Two rows never share a byte. */
  lemma {:induction false} ExtentsDisjoint(fm: Format, body: Slotted, s: nat, t: nat)
    requires PageOK(fm, body) && s < t < |body.slots|
    ensures body.slots[t].offset + fm.rowSize <= body.slots[s].offset
  {
    ExtentInside(fm, body, s);
    ExtentInside(fm, body, t);
    TimesMonotone(s + 1, t, fm.rowSize);
    assert (s + 1) * fm.rowSize == s * fm.rowSize + fm.rowSize;
  }

  predicate Live(body: Slotted, s: nat) {
    s < |body.slots| && body.slots[s].alive
  }

  function RowBytes(fm: Format, body: Slotted, s: nat): (r: Bytes)
    requires s < |body.slots| && body.slots[s].offset + fm.rowSize <= |body.bytes|
    ensures |r| == fm.rowSize
  {
    body.bytes[body.slots[s].offset..body.slots[s].offset + fm.rowSize]
  }

  ghost predicate HasRow(fm: Format, body: Slotted, s: nat, row: Bytes) {
    Live(body, s) && body.slots[s].offset + fm.rowSize <= |body.bytes| && RowBytes(fm, body, s) == row
  }

  /** Every slot but s is live or free as before, and holds the row it held. */
  ghost predicate SameBut(fm: Format, body: Slotted, body': Slotted, s: nat) {
    forall t, row {:trigger HasRow(fm, body, t, row)} {:trigger HasRow(fm, body', t, row)} ::
      t != s ==> (HasRow(fm, body, t, row) <==> HasRow(fm, body', t, row))
  }

  /* ---------- room ---------- */

  /** The room between the two areas, in the 16-bit arithmetic of the program. */
  function Available(fm: Format, body: Slotted): nat {
    var front := (16 + 8 * |body.slots|) % U16;
    var back := (fm.pageSize - body.used) % U16;
    if back <= front then 0 else back - front
  }

  predicate HasRoom(fm: Format, body: Slotted) {
    Available(fm, body) >= (8 + fm.rowSize) % U16
  }

  predicate CanTake(fm: Format, body: Slotted) {
    body.freeHead != SLOT_NONE || HasRoom(fm, body)
  }

  function Empty(bytes: Bytes): Slotted {
    Slotted([], SLOT_NONE, 0, bytes)
  }

  /** A page of up to 65535 bytes is measured exactly. */
  lemma {:induction false} RoomIsExact(fm: Format, body: Slotted)
    requires PageOK(fm, body) && fm.pageSize < U16 && fm.rowSize + 8 < U16
    ensures HasRoom(fm, body) <==> 16 + 8 * (|body.slots| + 1) + (|body.slots| + 1) * fm.rowSize <= fm.pageSize
  {
    assert (|body.slots| + 1) * fm.rowSize == body.used + fm.rowSize;
  }

  /** A fresh page can take a row, so that an insert that has to start one ends, exactly when the
      row fits behind the page header and one slot in what is left of the page size modulo 65536. */
  lemma {:induction false} FreshPageTakes(fm: Format, bytes: Bytes)
    requires fm.rowSize + 8 < U16
    ensures CanTake(fm, Empty(bytes)) <==> fm.rowSize + 24 <= fm.pageSize % U16
  {
  }

  /** On pages of 65536 bytes no fresh page takes any row, though each has ample room: an insert
      takes one page after another and never ends. */
  lemma {:induction false} BigPagesNeverTake(rowSize: nat, bytes: Bytes)
    requires rowSize + 8 < U16
    ensures !CanTake(Format(0x1_0000, rowSize), Empty(bytes))
  {
  }

  lemma {:induction false} EmptyOK(fm: Format, bytes: Bytes)
    requires |bytes| == fm.pageSize >= 16
    ensures PageOK(fm, Empty(bytes)) && forall s :: !Live(Empty(bytes), s)
  {
    assert FreeChain([], SLOT_NONE, []);
  }

  /* ---------- changes ---------- */

  lemma {:induction false} OverwriteElsewhere(buf: Bytes, o: nat, s: Bytes, i: nat, j: nat)
    requires o + |s| <= |buf| && i <= j <= |buf| && (j <= o || o + |s| <= i)
    ensures Overwrite(buf, o, s)[i..j] == buf[i..j]
  {
  }

  lemma {:induction false} OverwriteThere(buf: Bytes, o: nat, s: Bytes)
    requires o + |s| <= |buf|
    ensures Overwrite(buf, o, s)[o..o + |s|] == s
  {
  }

  /** Write a row into the extent of slot s, and put slot' in the directory there. */
  function PutRow(body: Slotted, s: nat, slot': Slot, freeHead': nat, row: Bytes): Slotted
    requires s < |body.slots| && slot'.offset + |row| <= |body.bytes|
  {
    body.(slots := body.slots[s := slot'], freeHead := freeHead', bytes := Overwrite(body.bytes, slot'.offset, row))
  }

  /** The free slot at the head of the chain is taken again. */
  function Reuse(body: Slotted, row: Bytes): Slotted
    requires body.freeHead < |body.slots| && body.slots[body.freeHead].offset + |row| <= |body.bytes|
  {
    var slot := body.slots[body.freeHead];
    PutRow(body, body.freeHead, slot.(alive := true, nextFree := SLOT_NONE), slot.nextFree, row)
  }

  /** An UPDATE overwrites the row of a slot. */
  function Replace(body: Slotted, s: nat, row: Bytes): Slotted
    requires s < |body.slots| && body.slots[s].offset + |row| <= |body.bytes|
  {
    PutRow(body, s, body.slots[s], body.freeHead, row)
  }

  function NewOffset(fm: Format, body: Slotted): nat {
    (fm.pageSize - body.used - fm.rowSize) % U16
  }

  /** A new slot at the end of the directory, and its row in front of the others. */
  function Append(fm: Format, body: Slotted, row: Bytes): Slotted
    requires NewOffset(fm, body) + |row| <= |body.bytes|
  {
    Slotted(body.slots + [Slot(NewOffset(fm, body), true, SLOT_NONE)], body.freeHead,
            (body.used + fm.rowSize) % U16, Overwrite(body.bytes, NewOffset(fm, body), row))
  }

  /** A tombstone: the slot goes on the chain of free slots, the bytes stay. */
  function Bury(body: Slotted, s: nat): Slotted
    requires s < |body.slots|
  {
    body.(slots := body.slots[s := body.slots[s].(alive := false, nextFree := body.freeHead)], freeHead := s)
  }

  /* ---------- what the changes do ---------- */

  /** The extents of two slots do not meet. */
  predicate Apart(fm: Format, body: Slotted, s: nat, t: nat)
    requires s < |body.slots| && t < |body.slots|
  {
    body.slots[t].offset + fm.rowSize <= body.slots[s].offset || body.slots[s].offset + fm.rowSize <= body.slots[t].offset
  }

  lemma {:induction false} AllApart(fm: Format, body: Slotted, s: nat)
    requires PageOK(fm, body) && s < |body.slots|
    ensures forall t {:trigger Apart(fm, body, s, t)} :: 0 <= t < |body.slots| && t != s ==> Apart(fm, body, s, t)
  {
    forall t | 0 <= t < |body.slots| && t != s
      ensures Apart(fm, body, s, t)
    {
      if t < s {
        ExtentsDisjoint(fm, body, t, s);
      } else {
        ExtentsDisjoint(fm, body, s, t);
      }
    }
  }

  lemma {:induction false} PutRowChanges(fm: Format, body: Slotted, s: nat, slot': Slot, freeHead': nat, row: Bytes)
    requires PageOK(fm, body) && s < |body.slots| && |row| == fm.rowSize
    requires slot'.alive && slot'.offset == body.slots[s].offset
    requires slot'.offset + |row| <= |body.bytes|
    ensures var body' := PutRow(body, s, slot', freeHead', row);
            HasRow(fm, body', s, row) && SameBut(fm, body, body', s)
  {
    AllApart(fm, body, s);
    PutRowRows(fm, body, PutRow(body, s, slot', freeHead', row), s, slot', row);
  }

  lemma {:induction false} PutRowRows(fm: Format, body: Slotted, body': Slotted, s: nat, slot': Slot, row: Bytes)
    requires s < |body.slots| && |row| == fm.rowSize
    requires slot'.alive && slot'.offset == body.slots[s].offset && slot'.offset + |row| <= |body.bytes|
    requires body'.slots == body.slots[s := slot'] && body'.bytes == Overwrite(body.bytes, slot'.offset, row)
    requires forall t {:trigger Apart(fm, body, s, t)} :: 0 <= t < |body.slots| && t != s ==> Apart(fm, body, s, t)
    ensures HasRow(fm, body', s, row) && SameBut(fm, body, body', s)
  {
    OverwriteThere(body.bytes, slot'.offset, row);
    forall t: nat, r | t != s
      ensures HasRow(fm, body, t, r) <==> HasRow(fm, body', t, r)
    {
      if t < |body.slots| && body.slots[t].offset + fm.rowSize <= |body.bytes| {
        assert Apart(fm, body, s, t);
        OverwriteElsewhere(body.bytes, slot'.offset, row, body.slots[t].offset, body.slots[t].offset + fm.rowSize);
      }
    }
  }

  lemma {:induction false} ChainAfterReuse(slots: seq<Slot>, chain: seq<nat>, slot': Slot)
    requires chain != [] && FreeChain(slots, chain[0], chain) && slot'.alive
    ensures SlotLink(slots, chain, 0)
    ensures FreeChain(slots[chain[0] := slot'], NextSlot(chain, 1), chain[1..])
  {
    assert SlotLink(slots, chain, 0);
    var slots', chain' := slots[chain[0] := slot'], chain[1..];
    forall i | 0 <= i < |chain'|
      ensures SlotLink(slots', chain', i)
    {
      assert SlotLink(slots, chain, i + 1);
    }
    forall t | 0 <= t < |slots'| && !slots'[t].alive
      ensures t in chain'
    {
      var i :| 0 <= i < |chain| && chain[i] == t;
      assert chain'[i - 1] == t;
    }
  }

  lemma {:induction false} ChainAfterBury(slots: seq<Slot>, head: nat, chain: seq<nat>, s: nat)
    requires FreeChain(slots, head, chain) && s < |slots| && slots[s].alive
    ensures FreeChain(slots[s := slots[s].(alive := false, nextFree := head)], s, [s] + chain)
  {
    var slots', chain' := slots[s := slots[s].(alive := false, nextFree := head)], [s] + chain;
    forall i | 0 <= i < |chain|
      ensures chain[i] != s && chain[i] == chain'[i + 1]
    {
      assert SlotLink(slots, chain, i);
    }
    forall i | 0 <= i < |chain'|
      ensures SlotLink(slots', chain', i)
    {
      assert i > 0 ==> SlotLink(slots, chain, i - 1);
    }
  }

  lemma {:induction false} ChainAfterAppend(slots: seq<Slot>, head: nat, chain: seq<nat>, slot: Slot)
    requires FreeChain(slots, head, chain) && slot.alive
    ensures FreeChain(slots + [slot], head, chain)
  {
    forall i | 0 <= i < |chain|
      ensures SlotLink(slots + [slot], chain, i)
    {
      assert SlotLink(slots, chain, i);
    }
  }

  lemma {:induction false} ExtentsKept(fm: Format, slots: seq<Slot>, slots': seq<Slot>)
    requires forall s {:trigger ExtentOK(fm, slots, s)} :: 0 <= s < |slots| ==> ExtentOK(fm, slots, s)
    requires |slots'| == |slots| && forall s :: 0 <= s < |slots| ==> slots'[s].offset == slots[s].offset
    ensures forall s {:trigger ExtentOK(fm, slots', s)} :: 0 <= s < |slots'| ==> ExtentOK(fm, slots', s)
  {
    forall s | 0 <= s < |slots'|
      ensures ExtentOK(fm, slots', s)
    {
      assert ExtentOK(fm, slots, s);
    }
  }

  /** Taking a free slot again puts the row there and changes no other row. */
  lemma {:induction false} ReuseKeeps(fm: Format, body: Slotted, row: Bytes) returns (body': Slotted)
    requires PageOK(fm, body) && body.freeHead != SLOT_NONE && |row| == fm.rowSize
    ensures body.freeHead < |body.slots| && !Live(body, body.freeHead)
    ensures body.slots[body.freeHead].offset + |row| <= |body.bytes|
    ensures body' == Reuse(body, row) && PageOK(fm, body')
    ensures HasRow(fm, body', body.freeHead, row) && SameBut(fm, body, body', body.freeHead)
    ensures HasRoom(fm, body') == HasRoom(fm, body)
  {
    var chain :| FreeChain(body.slots, body.freeHead, chain);
    var s := body.freeHead;
    assert SlotLink(body.slots, chain, 0);
    ExtentInside(fm, body, s);
    var slot' := body.slots[s].(alive := true, nextFree := SLOT_NONE);
    ChainAfterReuse(body.slots, chain, slot');
    body' := Reuse(body, row);
    ExtentsKept(fm, body.slots, body'.slots);
    PutRowChanges(fm, body, s, slot', body.slots[s].nextFree, row);
  }

  lemma {:induction false} ReplaceKeeps(fm: Format, body: Slotted, s: nat, row: Bytes) returns (body': Slotted)
    requires PageOK(fm, body) && Live(body, s) && |row| == fm.rowSize
    ensures body.slots[s].offset + |row| <= |body.bytes|
    ensures body' == Replace(body, s, row) && PageOK(fm, body')
    ensures HasRow(fm, body', s, row) && SameBut(fm, body, body', s)
    ensures HasRoom(fm, body') == HasRoom(fm, body) && body'.freeHead == body.freeHead
  {
    ExtentInside(fm, body, s);
    body' := Replace(body, s, row);
    assert body'.slots == body.slots;
    PutRowChanges(fm, body, s, body.slots[s], body.freeHead, row);
  }

  /** The extent of the next slot: in front of all the others and behind the longer directory. */
  lemma {:induction false} NextExtent(fm: Format, body: Slotted) returns (o: nat)
    requires PageOK(fm, body) && HasRoom(fm, body)
    requires fm.pageSize < U16 && fm.rowSize + 8 < U16
    ensures o == NewOffset(fm, body) == fm.pageSize - (|body.slots| + 1) * fm.rowSize
    ensures 16 + 8 * (|body.slots| + 1) <= o && o + fm.rowSize <= |body.bytes|
    ensures (body.used + fm.rowSize) % U16 == (|body.slots| + 1) * fm.rowSize
    ensures o + (|body.slots| + 1) * fm.rowSize == fm.pageSize
    ensures forall t :: 0 <= t < |body.slots| ==> o + fm.rowSize <= body.slots[t].offset
  {
    RoomIsExact(fm, body);
    var n := |body.slots|;
    assert (n + 1) * fm.rowSize == body.used + fm.rowSize;
    o := NewOffset(fm, body);
    forall t | 0 <= t < n
      ensures o + fm.rowSize <= body.slots[t].offset
    {
      ExtentInside(fm, body, t);
      TimesMonotone(t + 1, n, fm.rowSize);
      assert (t + 1) * fm.rowSize == t * fm.rowSize + fm.rowSize;
    }
  }

  lemma {:induction false} AppendRows(fm: Format, body: Slotted, body': Slotted, slot: Slot, row: Bytes)
    requires |row| == fm.rowSize && slot.alive && slot.offset + fm.rowSize <= |body.bytes|
    requires body'.slots == body.slots + [slot] && body'.bytes == Overwrite(body.bytes, slot.offset, row)
    requires forall t :: 0 <= t < |body.slots| ==> slot.offset + fm.rowSize <= body.slots[t].offset
    ensures HasRow(fm, body', |body.slots|, row) && SameBut(fm, body, body', |body.slots|)
  {
    OverwriteThere(body.bytes, slot.offset, row);
    forall t: nat, r | t != |body.slots|
      ensures HasRow(fm, body, t, r) <==> HasRow(fm, body', t, r)
    {
      if t < |body.slots| && body.slots[t].offset + fm.rowSize <= |body.bytes| {
        OverwriteElsewhere(body.bytes, slot.offset, row, body.slots[t].offset, body.slots[t].offset + fm.rowSize);
      }
    }
  }

  lemma {:induction false} AppendOK(fm: Format, body: Slotted, body': Slotted, slot: Slot)
    requires PageOK(fm, body) && body'.slots == body.slots + [slot] && slot.alive
    requires body'.freeHead == body.freeHead && |body'.bytes| == fm.pageSize < U16
    requires body'.used == (|body.slots| + 1) * fm.rowSize
    requires slot.offset + (|body.slots| + 1) * fm.rowSize == fm.pageSize
    requires 16 + 8 * (|body.slots| + 1) <= slot.offset
    ensures PageOK(fm, body')
  {
    var chain :| FreeChain(body.slots, body.freeHead, chain);
    ChainAfterAppend(body.slots, body.freeHead, chain, slot);
    forall s | 0 <= s < |body'.slots|
      ensures ExtentOK(fm, body'.slots, s)
    {
      assert s < |body.slots| ==> ExtentOK(fm, body.slots, s);
    }
  }

  /** A new slot makes its row live and changes no other row. */
  lemma {:induction false} AppendKeeps(fm: Format, body: Slotted, row: Bytes) returns (body': Slotted)
    requires PageOK(fm, body) && HasRoom(fm, body) && |row| == fm.rowSize
    requires fm.pageSize < U16 && fm.rowSize + 8 < U16
    ensures NewOffset(fm, body) + |row| <= |body.bytes|
    ensures body' == Append(fm, body, row) && PageOK(fm, body') && body'.freeHead == body.freeHead
    ensures HasRow(fm, body', |body.slots|, row) && SameBut(fm, body, body', |body.slots|)
  {
    var o := NextExtent(fm, body);
    body' := Append(fm, body, row);
    AppendOK(fm, body, body', Slot(o, true, SLOT_NONE));
    AppendRows(fm, body, body', Slot(o, true, SLOT_NONE), row);
  }

  /** A tombstone takes one row away and changes no other. */
  lemma {:induction false} BuryKeeps(fm: Format, body: Slotted, s: nat) returns (body': Slotted)
    requires PageOK(fm, body) && Live(body, s)
    ensures body' == Bury(body, s) && PageOK(fm, body') && body'.freeHead != SLOT_NONE
    ensures !Live(body', s) && SameBut(fm, body, body', s)
    ensures HasRoom(fm, body') == HasRoom(fm, body)
  {
    body' := Bury(body, s);
    var chain :| FreeChain(body.slots, body.freeHead, chain);
    ChainAfterBury(body.slots, body.freeHead, chain, s);
    ExtentsKept(fm, body.slots, body'.slots);
  }
}
