/** Pages as bytes: the header, the slots of data and bucket pages, and B+ tree nodes; and that
    the pageLSN, the header, the slots and the entries do not interfere. */
module PageLayout {
  import opened Pages
  import opened Entries
  import opened Values
  import opened SlottedPages
  import B = BPlusTree

  const BITMAP: nat := 9
  const PAGE_ID: nat := 1
  const COUNT: nat := 5
  const NEXT: nat := 19

  /** The header fields follow one another without gaps, the pageLSN right after the link, and fit. */
  lemma HeaderPacked()
    ensures PAGE_ID == 1 && COUNT == PAGE_ID + 4 && BITMAP == COUNT + 4 && NEXT == BITMAP + MAX_SLOTS
    ensures LSN_OFFSET == NEXT + 4 && LSN_OFFSET + LSN_SIZE < HEADER_SIZE == 32
  {
  }

  // ---------------------------------------------------------------- integers

  predicate Int32(v: int) {
    -0x8000_0000 <= v < 0x8000_0000
  }

  /** struct.pack("<i", v) */
  function Enc32(v: int): (b: Bytes)
    requires Int32(v)
    ensures |b| == 4
  {
    LeBytes(if v < 0 then v + 0x1_0000_0000 else v, 4)
  }

  function Dec32(b: Bytes): int
    requires |b| == 4
  {
    var n := FromLe(b);
    if n >= 0x8000_0000 then n - 0x1_0000_0000 else n
  }

  lemma Int32RoundTrip(v: int)
    requires Int32(v)
    ensures Dec32(Enc32(v)) == v
  {
    assert Pow256(4) == 0x1_0000_0000;
    LeRoundTrip(if v < 0 then v + 0x1_0000_0000 else v, 4);
  }

  /** The integers a field accepts are those that four bytes can hold. */
  lemma StorableInts(v: int)
    ensures Storable(IntV(v)) <==> Int32(v)
    ensures Int32(v) <==> exists b: Bytes :: |b| == 4 && Dec32(b) == v
  {
    hide FromLe, Enc32;
    if Int32(v) {
      Int32RoundTrip(v);
      assert |Enc32(v)| == 4;
    }
    assert Pow256(4) == 0x1_0000_0000;
    forall b: Bytes | |b| == 4 && Dec32(b) == v ensures Int32(v) {
      FromLeBound(b);
    }
  }

  // ---------------------------------------------------------------- bytearrays

  /** p[lo:hi] */
  function Slice(p: Bytes, lo: nat, hi: nat): (s: Bytes)
    requires lo <= hi
    ensures hi <= |p| ==> s == p[lo..hi]
  {
    p[Min(lo, |p|)..Min(hi, |p|)]
  }

  /** p[lo:hi] = b; past the end it makes the array longer. */
  function Put(p: Bytes, lo: nat, hi: nat, b: Bytes): Bytes
    requires lo <= hi
  {
    p[..Min(lo, |p|)] + b + p[Min(hi, |p|)..]
  }

  lemma PutAt(p: Bytes, lo: nat, hi: nat, b: Bytes)
    requires lo <= hi <= |p| && |b| == hi - lo
    ensures |Put(p, lo, hi, b)| == |p|
    ensures forall i :: 0 <= i < |p| ==> Put(p, lo, hi, b)[i] == if lo <= i < hi then b[i - lo] else p[i]
  {
  }

  // ---------------------------------------------------------------- slotted pages

  function TypeOf(p: Bytes): byte
    requires |p| >= HEADER_SIZE
  {
    p[0]
  }

  function IdOf(p: Bytes): int
    requires |p| >= HEADER_SIZE
  {
    Dec32(p[PAGE_ID..PAGE_ID + 4])
  }

  function CountOf(p: Bytes): nat
    requires |p| >= HEADER_SIZE
  {
    FromLe(p[COUNT..COUNT + 4])
  }

  function LinkOf(p: Bytes): int
    requires |p| >= HEADER_SIZE
  {
    Dec32(p[NEXT..NEXT + 4])
  }

  /** The records of a page, slot by slot. */
  function SlotsOf(p: Bytes, size: nat): (s: Slots<Bytes>)
    requires |p| >= HEADER_SIZE
    ensures |s| == MAX_SLOTS && forall i :: 0 <= i < MAX_SLOTS ==> s[i] == SlotAt(p, size, i)
  {
    seq(MAX_SLOTS, i requires 0 <= i < MAX_SLOTS => SlotAt(p, size, i))
  }

  /** The bitmap has a zero byte for the slot. */
  predicate IsFree(p: Bytes, i: nat)
    requires |p| >= HEADER_SIZE && i < MAX_SLOTS
  {
    p[BITMAP + i] == 0
  }

  function SlotAt(p: Bytes, size: nat, i: nat): Option<Bytes>
    requires |p| >= HEADER_SIZE && i < MAX_SLOTS
  {
    if IsFree(p, i) then None else Some(Slice(p, SlotOffset(i, size), SlotOffset(i, size) + size))
  }

  /** How many of the slots from i on are occupied. */
  function Occupied(p: Bytes, i: nat): (n: nat)
    requires |p| >= HEADER_SIZE && i <= MAX_SLOTS
    ensures n <= MAX_SLOTS - i
    decreases MAX_SLOTS - i
  {
    if i == MAX_SLOTS then 0 else (if IsFree(p, i) then 0 else 1) + Occupied(p, i + 1)
  }

  /** The header counts the occupied slots. */
  predicate CountsSlots(p: Bytes) {
    |p| >= HEADER_SIZE && CountOf(p) == Occupied(p, 0)
  }

  /** `write_record_into_page` */
  function WriteRecord(p: Bytes, slot: nat, blob: Bytes, size: nat): Bytes
    requires |p| >= HEADER_SIZE && slot < MAX_SLOTS
  {
    var off := SlotOffset(slot, size);
    var p1 := Put(p, off, off + size, blob);
    assert |p1| >= HEADER_SIZE;
    var wasOccupied := p1[BITMAP + slot] != 0;
    var p2 := p1[BITMAP + slot := 1];
    if wasOccupied then p2 else Put(p2, COUNT, COUNT + 4, LeBytes(CountOf(p2) + 1, 4))
  }

  /** `clear_slot_in_page` */
  function ClearSlot(p: Bytes, slot: nat, size: nat): Bytes
    requires |p| >= HEADER_SIZE && slot < MAX_SLOTS
  {
    if p[BITMAP + slot] == 0 then p
    else
      var off := SlotOffset(slot, size);
      var p1 := Put(p[BITMAP + slot := 0], off, off + size, Zeros(size));
      assert |p1| >= HEADER_SIZE;
      if CountOf(p1) == 0 then p1 else Put(p1, COUNT, COUNT + 4, LeBytes(CountOf(p1) - 1, 4))
  }

  /** `set_next_page` */
  function SetNext(p: Bytes, next: int): Bytes
    requires Int32(next)
  {
    Put(p, NEXT, NEXT + 4, Enc32(next))
  }

  /** Nothing but the bitmap, the record count and the body may differ. */
  predicate SameFrame(p: Bytes, p': Bytes)
    requires |p| >= HEADER_SIZE
  {
    && |p'| == |p| && p'[..COUNT] == p[..COUNT] && PageLsn(p') == PageLsn(p)
    && LinkOf(p') == LinkOf(p)
  }

  lemma SlotsApart(i: nat, j: nat, size: nat)
    ensures i < j ==> SlotOffset(i, size) + size <= SlotOffset(j, size)
  {
    if i < j {
      assert j * size == i * size + (j - i) * size;
      assert (j - i) * size >= size by {
        MulMonotone(1, j - i, size);
      }
    }
  }

  lemma {:induction false} SameBitmap(p: Bytes, p': Bytes, i: nat)
    requires |p| >= HEADER_SIZE && |p'| >= HEADER_SIZE && i <= MAX_SLOTS
    requires forall j :: i <= j < MAX_SLOTS ==> (IsFree(p', j) <==> IsFree(p, j))
    ensures Occupied(p', i) == Occupied(p, i)
    decreases MAX_SLOTS - i
  {
    if i < MAX_SLOTS {
      SameBitmap(p, p', i + 1);
    }
  }

  lemma {:induction false} OneMore(p: Bytes, p': Bytes, i: nat, slot: nat)
    requires |p| >= HEADER_SIZE && |p'| >= HEADER_SIZE && i <= slot < MAX_SLOTS
    requires forall j :: i <= j < MAX_SLOTS && j != slot ==> (IsFree(p', j) <==> IsFree(p, j))
    requires IsFree(p, slot) && !IsFree(p', slot)
    ensures Occupied(p', i) == Occupied(p, i) + 1
    decreases MAX_SLOTS - i
  {
    if i < slot {
      OneMore(p, p', i + 1, slot);
    } else {
      SameBitmap(p, p', i + 1);
    }
  }

  /** What a slot update has to achieve byte by byte. */
  predicate SlotUpdated(p: Bytes, p': Bytes, slot: nat, size: nat, bit: byte, blob: Bytes)
    requires slot < MAX_SLOTS && |p| >= HEADER_SIZE
  {
    var off := SlotOffset(slot, size);
    && |p'| == |p| && |blob| == size && off + size <= |p|
    && p'[BITMAP + slot] == bit
    && (forall i :: off <= i < off + size ==> p'[i] == blob[i - off])
    && forall i :: 0 <= i < |p| && !(off <= i < off + size) && i != BITMAP + slot && !(COUNT <= i < COUNT + 4) ==>
         p'[i] == p[i]
  }

  lemma UpdatedSlots(p: Bytes, p': Bytes, slot: nat, size: nat, bit: byte, blob: Bytes)
    requires slot < MAX_SLOTS && |p| >= HEADER_SIZE && SlotUpdated(p, p', slot, size, bit, blob)
    ensures SlotsOf(p', size) == SlotsOf(p, size)[slot := if bit == 0 then None else Some(blob)]
    ensures SameFrame(p, p')
  {
    OffsetInBody(slot, size);
    hide SlotAt, SlotOffset;
    forall j | 0 <= j < MAX_SLOTS
      ensures SlotAt(p', size, j) == if j == slot then (if bit == 0 then None else Some(blob)) else SlotAt(p, size, j)
    {
      UpdatedSlot(p, p', slot, size, bit, blob, j);
    }
    SameBytes(p, p', 0, COUNT);
    SameBytes(p, p', LSN_OFFSET, LSN_OFFSET + LSN_SIZE);
    SameBytes(p, p', NEXT, NEXT + 4);
  }

  lemma SameBytes(p: Bytes, p': Bytes, lo: nat, hi: nat)
    requires |p'| == |p| && lo <= hi && forall i :: lo <= i < hi && i < |p| ==> p'[i] == p[i]
    ensures Slice(p', lo, hi) == Slice(p, lo, hi)
    ensures hi <= |p| ==> p'[lo..hi] == p[lo..hi]
  {
  }

  lemma UpdatedSlot(p: Bytes, p': Bytes, slot: nat, size: nat, bit: byte, blob: Bytes, j: nat)
    requires slot < MAX_SLOTS && |p| >= HEADER_SIZE && SlotUpdated(p, p', slot, size, bit, blob) && j < MAX_SLOTS
    ensures SlotAt(p', size, j) == if j == slot then (if bit == 0 then None else Some(blob)) else SlotAt(p, size, j)
  {
    UpdatedBitmap(p, p', slot, size, bit, blob);
    var off, a := SlotOffset(slot, size), SlotOffset(j, size);
    SlotsApart(j, slot, size);
    SlotsApart(slot, j, size);
    OffsetInBody(j, size);
    hide SlotOffset;
    if j == slot {
      assert p'[off..off + size] == blob;
    } else {
      SameBytes(p, p', a, a + size);
    }
  }

  lemma CountStored(p: Bytes, n: nat)
    requires |p| >= HEADER_SIZE && n < 0x1_0000_0000
    ensures var p' := Put(p, COUNT, COUNT + 4, LeBytes(n, 4));
            && |p'| == |p| && CountOf(p') == n
            && forall i :: 0 <= i < |p| && !(COUNT <= i < COUNT + 4) ==> p'[i] == p[i]
  {
    PutAt(p, COUNT, COUNT + 4, LeBytes(n, 4));
    assert Pow256(4) == 0x1_0000_0000;
    LeRoundTrip(n, 4);
    assert Put(p, COUNT, COUNT + 4, LeBytes(n, 4))[COUNT..COUNT + 4] == LeBytes(n, 4);
  }

  /** A written record is in its slot, no other slot or header field moves, and the count follows. */
  lemma WriteRecordSlots(p: Bytes, slot: nat, blob: Bytes, size: nat)
    requires CountsSlots(p) && slot < MAX_SLOTS && |blob| == size && SlotOffset(slot, size) + size <= |p|
    ensures var p' := WriteRecord(p, slot, blob, size);
            && SameFrame(p, p') && CountsSlots(p')
            && SlotsOf(p', size) == SlotsOf(p, size)[slot := Some(blob)]
  {
    WriteRecordBytes(p, slot, blob, size);
    var p' := WriteRecord(p, slot, blob, size);
    UpdatedSlots(p, p', slot, size, 1, blob);
    UpdatedBitmap(p, p', slot, size, 1, blob);
    hide SlotUpdated, WriteRecord;
    if IsFree(p, slot) {
      OneMore(p, p', 0, slot);
    } else {
      SameBitmap(p, p', 0);
    }
  }

  lemma UpdatedBitmap(p: Bytes, p': Bytes, slot: nat, size: nat, bit: byte, blob: Bytes)
    requires slot < MAX_SLOTS && |p| >= HEADER_SIZE && SlotUpdated(p, p', slot, size, bit, blob)
    ensures forall j :: 0 <= j < MAX_SLOTS && j != slot ==> (IsFree(p', j) <==> IsFree(p, j))
    ensures IsFree(p', slot) <==> bit == 0
  {
    hide SlotOffset, CountOf, SlotAt;
    forall j | 0 <= j < MAX_SLOTS && j != slot ensures IsFree(p', j) <==> IsFree(p, j) {
      OffsetInBody(slot, size);
      assert p'[BITMAP + j] == p[BITMAP + j];
    }
  }

  lemma WriteRecordBytes(p: Bytes, slot: nat, blob: Bytes, size: nat)
    requires |p| >= HEADER_SIZE && CountOf(p) <= MAX_SLOTS && slot < MAX_SLOTS && |blob| == size
    requires SlotOffset(slot, size) + size <= |p|
    ensures var p' := WriteRecord(p, slot, blob, size);
            SlotUpdated(p, p', slot, size, 1, blob) && CountOf(p') == CountOf(p) + if IsFree(p, slot) then 1 else 0
  {
    hide SlotOffset, FromLe, LeBytes, Put, CountOf;
    var off := SlotOffset(slot, size);
    OffsetInBody(slot, size);
    BlobPut(p, slot, off, size, blob);
    var p2 := Put(p, off, off + size, blob)[BITMAP + slot := 1];
    if IsFree(p, slot) {
      CountStored(p2, CountOf(p) + 1);
    }
  }

  /** The blob in its slot and the bitmap byte set, before the count follows. */
  lemma BlobPut(p: Bytes, slot: nat, off: nat, size: nat, blob: Bytes)
    requires |p| >= HEADER_SIZE && slot < MAX_SLOTS && |blob| == size && HEADER_SIZE <= off && off + size <= |p|
    ensures var p1 := Put(p, off, off + size, blob);
            && |p1| == |p| && p1[BITMAP + slot] == p[BITMAP + slot]
            && var p2 := p1[BITMAP + slot := 1];
            && CountOf(p2) == CountOf(p)
            && (forall i :: off <= i < off + size ==> p2[i] == blob[i - off])
            && forall i :: 0 <= i < |p| && !(off <= i < off + size) && i != BITMAP + slot ==> p2[i] == p[i]
  {
    PutAt(p, off, off + size, blob);
    var p1 := Put(p, off, off + size, blob);
    hide Put;
    var p2 := p1[BITMAP + slot := 1];
    SameBytes(p, p2, COUNT, COUNT + 4);
  }

  lemma ClearSlotBytes(p: Bytes, slot: nat, size: nat)
    requires |p| >= HEADER_SIZE && 0 < CountOf(p) <= MAX_SLOTS && slot < MAX_SLOTS && !IsFree(p, slot)
    requires SlotOffset(slot, size) + size <= |p|
    ensures var p' := ClearSlot(p, slot, size);
            SlotUpdated(p, p', slot, size, 0, Zeros(size)) && CountOf(p') == CountOf(p) - 1
  {
    hide SlotOffset, FromLe, LeBytes, Put, CountOf;
    var off := SlotOffset(slot, size);
    OffsetInBody(slot, size);
    ZerosPut(p, slot, off, size);
    var p1 := Put(p[BITMAP + slot := 0], off, off + size, Zeros(size));
    CountStored(p1, CountOf(p) - 1);
  }

  lemma OffsetInBody(slot: nat, size: nat)
    ensures SlotOffset(slot, size) >= HEADER_SIZE
  {
  }

  /** The slot's bytes zeroed and its bitmap byte cleared, before the count follows. */
  lemma ZerosPut(p: Bytes, slot: nat, off: nat, size: nat)
    requires |p| >= HEADER_SIZE && slot < MAX_SLOTS && HEADER_SIZE <= off && off + size <= |p|
    ensures var p1 := Put(p[BITMAP + slot := 0], off, off + size, Zeros(size));
            && |p1| == |p| && CountOf(p1) == CountOf(p) && p1[BITMAP + slot] == 0
            && (forall i :: off <= i < off + size ==> p1[i] == 0)
            && forall i :: 0 <= i < |p| && !(off <= i < off + size) && i != BITMAP + slot ==> p1[i] == p[i]
  {
    var p0 := p[BITMAP + slot := 0];
    PutAt(p0, off, off + size, Zeros(size));
    var p1 := Put(p0, off, off + size, Zeros(size));
    hide Put;
    assert p1[COUNT..COUNT + 4] == p[COUNT..COUNT + 4];
  }

  /** The page keeps its size exactly when the slot lies inside it. */
  lemma WriteRecordFits(p: Bytes, slot: nat, blob: Bytes, size: nat)
    requires |p| >= HEADER_SIZE && slot < MAX_SLOTS && |blob| == size > 0
    ensures |WriteRecord(p, slot, blob, size)| == |p| <==> SlotFits(|p|, slot, size)
  {
  }

  lemma ClearSlotSlots(p: Bytes, slot: nat, size: nat)
    requires CountsSlots(p) && slot < MAX_SLOTS && SlotOffset(slot, size) + size <= |p|
    ensures var p' := ClearSlot(p, slot, size);
            && SameFrame(p, p') && CountsSlots(p')
            && SlotsOf(p', size) == SlotsOf(p, size)[slot := None]
  {
    var p' := ClearSlot(p, slot, size);
    if IsFree(p, slot) {
      assert SlotsOf(p, size)[slot] == SlotAt(p, size, slot) == None;
    } else {
      OccupiedSome(p, 0, slot);
      ClearSlotBytes(p, slot, size);
      UpdatedSlots(p, p', slot, size, 0, Zeros(size));
      UpdatedBitmap(p, p', slot, size, 0, Zeros(size));
      hide SlotUpdated, ClearSlot;
      OneMore(p', p, 0, slot);
    }
  }

  lemma {:induction false} OccupiedSome(p: Bytes, i: nat, slot: nat)
    requires |p| >= HEADER_SIZE && i <= slot < MAX_SLOTS && !IsFree(p, slot)
    ensures Occupied(p, i) > 0
    decreases MAX_SLOTS - i
  {
    if i < slot {
      OccupiedSome(p, i + 1, slot);
    }
  }

  /** Linking a page changes its next field only. */
  lemma SetNextOnly(p: Bytes, next: int, size: nat)
    requires CountsSlots(p) && Int32(next)
    ensures var p' := SetNext(p, next);
            && |p'| == |p| && LinkOf(p') == next && CountsSlots(p') && PageLsn(p') == PageLsn(p)
            && SlotsOf(p', size) == SlotsOf(p, size)
  {
    var p' := SetNext(p, next);
    PutAt(p, NEXT, NEXT + 4, Enc32(next));
    assert p'[NEXT..NEXT + 4] == Enc32(next);
    Int32RoundTrip(next);
    hide Put, SetNext;
    SameBytes(p, p', LSN_OFFSET, LSN_OFFSET + LSN_SIZE);
    SameSlots(p, p', size);
  }

  /** Slots and their count depend on the count, the bitmap and the body only. */
  lemma SameSlots(p: Bytes, p': Bytes, size: nat)
    requires |p| >= HEADER_SIZE && |p'| == |p|
    requires forall i :: 0 <= i < |p| && (i < NEXT || i >= HEADER_SIZE) ==> p'[i] == p[i]
    ensures SlotsOf(p', size) == SlotsOf(p, size)
    ensures CountOf(p') == CountOf(p) && Occupied(p', 0) == Occupied(p, 0) && p'[..COUNT] == p[..COUNT]
  {
    hide Occupied, SlotAt, SlotOffset, FromLe;
    SameBytes(p, p', COUNT, COUNT + 4);
    SameBytes(p, p', 0, COUNT);
    forall j | 0 <= j < MAX_SLOTS ensures (IsFree(p', j) <==> IsFree(p, j)) && SlotAt(p', size, j) == SlotAt(p, size, j) {
      SameSlot(p, p', size, j);
    }
    SameBitmap(p, p', 0);
  }

  lemma SameSlot(p: Bytes, p': Bytes, size: nat, j: nat)
    requires |p| >= HEADER_SIZE && |p'| == |p| && j < MAX_SLOTS
    requires forall i :: 0 <= i < |p| && (i < NEXT || i >= HEADER_SIZE) ==> p'[i] == p[i]
    ensures (IsFree(p', j) <==> IsFree(p, j)) && SlotAt(p', size, j) == SlotAt(p, size, j)
  {
    var a := SlotOffset(j, size);
    OffsetInBody(j, size);
    hide SlotOffset;
    assert p'[BITMAP + j] == p[BITMAP + j];
    SameBytes(p, p', a, a + size);
  }

  /** Stamping the pageLSN changes no header field and no slot. */
  lemma StampKeepsSlots(p: Bytes, lsn: nat, size: nat)
    requires CountsSlots(p)
    ensures var p' := Stamp(p, lsn);
            && |p'| == |p| && CountsSlots(p') && LinkOf(p') == LinkOf(p) && p'[..COUNT] == p[..COUNT]
            && SlotsOf(p', size) == SlotsOf(p, size)
  {
    var p' := Stamp(p, lsn);
    hide Stamp;
    SameBytes(p, p', NEXT, NEXT + 4);
    SameSlots(p, p', size);
  }
}
