/** The heap of a relation: data pages of ten slots, first-fit insertion, and the sequential
    scans of the heap_scan strategy. */
module HeapScan {
  import opened Pages
  import opened Entries
  import opened SlottedPages
  import opened Values

  /** The slot a pointer names; None where there is no such slot. */
  function Cell<T>(pages: seq<Slots<T>>, q: Ptr): Option<T> {
    if 0 <= q.page < |pages| && 0 <= q.slot < |pages[q.page]| then pages[q.page][q.slot] else None
  }

  predicate PtrLess(a: Ptr, b: Ptr) {
    a.page < b.page || (a.page == b.page && a.slot < b.slot)
  }

  /** Where insertion puts a row: the first free slot within the cap, or slot 0 of a fresh page. */
  function Target<T>(pages: seq<Slots<T>>, cap: nat, pid: nat): (at: Ptr)
    requires 1 <= cap && pid <= |pages| && forall p :: 0 <= p < |pages| ==> cap <= |pages[p]|
    ensures pid <= at.page <= |pages| && 0 <= at.slot < cap && Cell(pages, at) == None
    ensures forall q: Ptr :: pid <= q.page && 0 <= q.slot < cap && PtrLess(q, at) ==> Cell(pages, q).Some?
    decreases |pages| - pid
  {
    if pid == |pages| then Ptr(pid, 0)
    else
      var slot := FirstFree(pages[pid], cap, 0);
      if slot < cap then Ptr(pid, slot) else Target(pages, cap, pid + 1)
  }

  /** Where the last slot under the cap fits, no insertion is refused. */
  lemma TargetFits<T>(pages: seq<Slots<T>>, cap: nat, pageSize: nat, size: nat)
    requires 1 <= cap && forall p :: 0 <= p < |pages| ==> cap <= |pages[p]|
    requires SlotFits(pageSize, cap - 1, size)
    ensures SlotFits(pageSize, Target(pages, cap, 0).slot, size)
  {
    hide SlotOffset, Target;
    OffsetGrows(Target(pages, cap, 0).slot, cap - 1, size);
  }

  /** Assigning to a slot changes that cell only. */
  lemma CellPut<T>(pages: seq<Slots<T>>, pid: nat, slot: nat, c: Option<T>)
    requires pid < |pages| && slot < |pages[pid]|
    ensures var pages' := pages[pid := pages[pid][slot := c]];
            Cell(pages', Ptr(pid, slot)) == c && forall q :: q != Ptr(pid, slot) ==> Cell(pages', q) == Cell(pages, q)
  {
  }

  lemma BlankPage<T>(pages: seq<Slots<T>>, blank: Slots<T>)
    requires forall i :: 0 <= i < |blank| ==> blank[i] == None
    ensures forall q :: Cell(pages + [blank], q) == Cell(pages, q)
  {
  }

  predicate HasKey(c: Option<Row>, pk: nat, key: Value) {
    c.Some? && pk < |c.value| && c.value[pk] == key
  }

  predicate InRange(c: Option<Row>, field: nat, low: int, high: int) {
    c.Some? && field < |c.value| && c.value[field].IntV? && low <= c.value[field].n <= high
  }

  class Heap {
    const cap: nat
    const pageSize: nat
    const recordSize: nat
    var pages: seq<Slots<Row>>

    ghost predicate Valid()
      reads this
    {
      1 <= cap <= MAX_SLOTS && forall p :: 0 <= p < |pages| ==> |pages[p]| == MAX_SLOTS
    }

    constructor (maxRecords: int, pageSize: nat, recordSize: nat)
      ensures Valid() && pages == [] && this.pageSize == pageSize && this.recordSize == recordSize
      ensures cap == if maxRecords < 1 then 1 else if maxRecords > MAX_SLOTS then MAX_SLOTS else maxRecords
    {
      this.pageSize, this.recordSize := pageSize, recordSize;
      cap := if maxRecords < 1 then 1 else if maxRecords > MAX_SLOTS then MAX_SLOTS else maxRecords;
      pages := [];
    }

    /** `insert_into_heap`: the first free slot within the configured cap, else a fresh page. A record that
        would reach past the end of its page is refused, which leaves a fresh page blank. */
    method Insert(row: Row) returns (at: Option<Ptr>)
      requires Valid()
      modifies this
      ensures Valid()
      ensures var t := Target(old(pages), cap, 0);
              && at == (if SlotFits(pageSize, t.slot, recordSize) then Some(t) else None)
              && Cell(pages, t) == (if at.Some? then Some(row) else None)
              && (forall q :: q != t ==> Cell(pages, q) == Cell(old(pages), q))
              && |pages| == if t.page == |old(pages)| then |old(pages)| + 1 else |old(pages)|
    {
      hide SlotFits, Cell;
      for pid := 0 to |pages|
        invariant pages == old(pages) && Target(pages, cap, 0) == Target(pages, cap, pid)
      {
        var slot := FindFreeSlot(pages[pid], cap);
        if slot != -1 {
          if !SlotFits(pageSize, slot, recordSize) {
            return None;
          }
          CellPut(pages, pid, slot, Some(row));
          pages := pages[pid := pages[pid][slot := Some(row)]];
          return Some(Ptr(pid, slot));
        }
      }
      var pid := |pages|;
      var blank: Slots<Row> := [None, None, None, None, None, None, None, None, None, None];
      BlankPage(pages, blank);
      pages := pages + [blank];
      if !SlotFits(pageSize, 0, recordSize) {
        return None;
      }
      CellPut(pages, pid, 0, Some(row));
      pages := pages[pid := blank[0 := Some(row)]];
      return Some(Ptr(pid, 0));
    }

    /** `read_record_at` */
    method ReadRecordAt(at: Ptr) returns (row: Option<Row>)
      requires Valid() && 0 <= at.page < |pages| && 0 <= at.slot < MAX_SLOTS
      ensures row == Cell(pages, at)
    {
      row := pages[at.page][at.slot];
    }

    /** `delete_at` */
    method DeleteAt(at: Ptr) returns (ok: bool)
      requires Valid() && 0 <= at.page < |pages| && 0 <= at.slot < MAX_SLOTS
      modifies this
      ensures Valid() && |pages| == |old(pages)|
      ensures ok <==> Cell(old(pages), at).Some?
      ensures Cell(pages, at) == None
      ensures forall q :: q != at ==> Cell(pages, q) == Cell(old(pages), q)
    {
      if pages[at.page][at.slot].None? {
        return false;
      }
      pages := pages[at.page := pages[at.page][at.slot := None]];
      return true;
    }

    /** `find_location_by_pk`: the first slot that holds the key. */
    method FindLocation(pk: nat, key: Value) returns (at: Option<Ptr>)
      requires Valid()
      ensures at.Some? ==> HasKey(Cell(pages, at.value), pk, key)
      ensures forall q :: (at.Some? ==> PtrLess(q, at.value)) ==> !HasKey(Cell(pages, q), pk, key)
    {
      for pid := 0 to |pages|
        invariant forall q: Ptr :: q.page < pid ==> !HasKey(Cell(pages, q), pk, key)
      {
        var slots := pages[pid];
        for slot := 0 to MAX_SLOTS
          invariant forall q :: PtrLess(q, Ptr(pid, slot)) ==> !HasKey(Cell(pages, q), pk, key)
        {
          assert Cell(pages, Ptr(pid, slot)) == slots[slot];
          if slots[slot].Some? && pk < |slots[slot].value| && slots[slot].value[pk] == key {
            return Some(Ptr(pid, slot));
          }
        }
      }
      return None;
    }

    /** `search_by_pk` */
    method SearchByPk(pk: nat, key: Value) returns (row: Option<Row>, ghost at: Ptr)
      requires Valid()
      ensures row.Some? ==> HasKey(row, pk, key) && Cell(pages, at) == row
      ensures row.None? ==> forall q :: !HasKey(Cell(pages, q), pk, key)
    {
      for pid := 0 to |pages|
        invariant forall q: Ptr :: q.page < pid ==> !HasKey(Cell(pages, q), pk, key)
      {
        var slots := pages[pid];
        for slot := 0 to MAX_SLOTS
          invariant forall q :: PtrLess(q, Ptr(pid, slot)) ==> !HasKey(Cell(pages, q), pk, key)
        {
          assert Cell(pages, Ptr(pid, slot)) == slots[slot];
          if slots[slot].Some? && pk < |slots[slot].value| && slots[slot].value[pk] == key {
            return slots[slot], Ptr(pid, slot);
          }
        }
      }
      return None, Ptr(0, 0);
    }

    /** `range_search`: every row in the range once, in heap order. */
    method RangeSearch(field: nat, low: int, high: int) returns (matches: seq<Row>, ghost at: seq<Ptr>)
      requires Valid()
      ensures |at| == |matches|
      ensures forall i :: 0 <= i < |at| ==> Cell(pages, at[i]) == Some(matches[i]) && InRange(Some(matches[i]), field, low, high)
      ensures forall i, j :: 0 <= i < j < |at| ==> PtrLess(at[i], at[j])
      ensures forall q :: InRange(Cell(pages, q), field, low, high) ==> q in at
      ensures forall i :: 0 <= i < |matches| ==> InRange(Some(matches[i]), field, low, high)
      ensures forall q :: InRange(Cell(pages, q), field, low, high) ==> Cell(pages, q).value in matches
    {
      matches, at := [], [];
      for pid := 0 to |pages|
        invariant Scanned(Ptr(pid, 0), field, low, high, matches, at)
      {
        var slots := pages[pid];
        for slot := 0 to MAX_SLOTS
          invariant Scanned(Ptr(pid, slot), field, low, high, matches, at)
        {
          ghost var q, at0 := Ptr(pid, slot), at;
          assert Cell(pages, q) == slots[slot];
          if slots[slot].Some? {
            var row := slots[slot].value;
            if field < |row| && row[field].IntV? && low <= row[field].n <= high {
              matches := matches + [row];
              at := at + [q];
            }
          }
          forall u | PtrLess(u, Ptr(pid, slot + 1)) && InRange(Cell(pages, u), field, low, high) ensures u in at {
            if u != q {
              assert PtrLess(u, q) && u in at0;
            }
          }
        }
      }
    }

    /** What a range scan has found in the slots before `upTo`. */
    ghost predicate Scanned(upTo: Ptr, field: nat, low: int, high: int, matches: seq<Row>, at: seq<Ptr>)
      reads this
    {
      && |at| == |matches|
      && (forall i :: 0 <= i < |at| ==> PtrLess(at[i], upTo))
      && (forall i :: 0 <= i < |at| ==> Cell(pages, at[i]) == Some(matches[i]) && InRange(Some(matches[i]), field, low, high))
      && (forall i, j :: 0 <= i < j < |at| ==> PtrLess(at[i], at[j]))
      && (forall q :: PtrLess(q, upTo) && InRange(Cell(pages, q), field, low, high) ==> q in at)
    }
  }
}
