/** What all page formats share: slots and the null page id. */
module SlottedPages {
  import opened Pages

  const MAX_SLOTS: nat := 10
  const NULL_PAGE := -1

  type Slots<T> = seq<Option<T>>

  function SlotOffset(slot: nat, size: nat): nat {
    HEADER_SIZE + slot * size
  }

  /** The slot lies inside the page. */
  predicate SlotFits(pageSize: nat, slot: nat, size: nat) {
    SlotOffset(slot, size) + size <= pageSize
  }

  lemma {:induction false} OffsetGrows(i: nat, j: nat, size: nat)
    requires i <= j
    ensures SlotOffset(i, size) <= SlotOffset(j, size)
    decreases j - i
  {
    hide SlotOffset;
    if i < j {
      OffsetGrows(i, j - 1, size);
      NextOffset(j - 1, size);
    }
  }

  lemma NextOffset(i: nat, size: nat)
    ensures SlotOffset(i + 1, size) == SlotOffset(i, size) + size
  {
  }

  /** First slot from s on, below maxSlots, that is free; maxSlots if there is none. */
  function FirstFree<T>(slots: Slots<T>, maxSlots: nat, s: nat): (r: nat)
    requires s <= maxSlots <= |slots|
    ensures s <= r <= maxSlots && (r < maxSlots ==> slots[r].None?)
    ensures forall i :: s <= i < r ==> slots[i].Some?
    decreases maxSlots - s
  {
    if s == maxSlots || slots[s].None? then s else FirstFree(slots, maxSlots, s + 1)
  }

  /** `find_free_slot` */
  method FindFreeSlot<T>(slots: Slots<T>, maxSlots: nat) returns (slot: int)
    requires maxSlots <= |slots|
    ensures slot == if FirstFree(slots, maxSlots, 0) < maxSlots then FirstFree(slots, maxSlots, 0) else -1
  {
    for i := 0 to maxSlots
      invariant FirstFree(slots, maxSlots, 0) == FirstFree(slots, maxSlots, i)
    {
      if slots[i].None? {
        return i;
      }
    }
    return -1;
  }
}
