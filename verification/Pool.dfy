/** The buffer pool above the engine core, as a value. */
module Pool {
  import opened Pages
  import opened Log
  import opened Engine

  datatype Policy = LRU | MRU

  /** `order` lists the cached keys, least recently used first; with `frames` it is the
      ordered dictionary of the source. */
  datatype Sys = Sys(core: Core, poolSize: nat, policy: Policy,
                     order: seq<PageKey>, frames: map<PageKey, Bytes>, dirty: map<PageKey, bool>)

  predicate IsDirty(s: Sys, k: PageKey) {
    k in s.dirty && s.dirty[k]
  }

  function Without(order: seq<PageKey>, k: PageKey): (r: seq<PageKey>)
    ensures |r| <= |order|
  {
    if order == [] then [] else if order[0] == k then order[1..] else [order[0]] + Without(order[1..], k)
  }

  /** `move_to_end` */
  function Touch(order: seq<PageKey>, k: PageKey): seq<PageKey> {
    Without(order, k) + [k]
  }

  /** Assigning to a key of an ordered dictionary keeps its place; a new key goes last. */
  function PutFrame(s: Sys, k: PageKey, data: Bytes, isDirty: bool): Sys {
    s.(order := if k in s.frames then s.order else s.order + [k],
       frames := s.frames[k := data], dirty := s.dirty[k := isDirty])
  }

  function DropFrame(s: Sys, k: PageKey): Sys {
    s.(order := Without(s.order, k), frames := s.frames - {k}, dirty := s.dirty - {k})
  }

  function VictimOf(policy: Policy, order: seq<PageKey>): PageKey
    requires order != []
  {
    if policy == MRU then order[|order| - 1] else order[0]
  }

  /** WAL #1, then the page write, then the page leaves the dirty page table. */
  function WriteBack(c: Core, k: PageKey, data: Bytes): (Core, bool)
    requires |data| >= HEADER_SIZE
  {
    var (c1, ok) := DiskWrite(FlushLogUpTo(c, PageLsn(data)), k, data);
    if ok then (PageFlushed(c1, k), true) else (c1, false)
  }

  predicate NoDup(order: seq<PageKey>) {
    forall i, j :: 0 <= i < j < |order| ==> order[i] != order[j]
  }

  /** Frames hold whole pages and `frames` has exactly the keys of `order`. */
  ghost predicate FramesOk(s: Sys) {
    && s.poolSize >= 1
    && s.core.cfg.pageSize >= HEADER_SIZE
    && (forall k :: k in s.order <==> k in s.frames)
    && NoDup(s.order)
    && (forall k :: k in s.frames ==> |s.frames[k]| == s.core.cfg.pageSize)
    && |s.order| <= s.poolSize
  }

  /** `_make_room`: the new state, and whether a frame is free. */
  ghost function MakeRoom(s: Sys): (Sys, bool)
    requires FramesOk(s)
  {
    if |s.order| < s.poolSize then (s, true)
    else
      var v := VictimOf(s.policy, s.order);
      assert v in s.order;
      if IsDirty(s, v) then
        var (c, ok) := WriteBack(s.core, v, s.frames[v]);
        if ok then (DropFrame(s.(core := c), v), true) else (s.(core := c), false)
      else (DropFrame(s, v), true)
  }

  ghost function GetPage(s: Sys, k: PageKey): (Sys, Option<Bytes>)
    requires FramesOk(s)
  {
    if k in s.frames then (s.(order := Touch(s.order, k)), Some(s.frames[k]))
    else
      match DiskRead(s.core, k)
      case None => (s, None)
      case Some(data) =>
        var (s1, ok) := MakeRoom(s);
        if !ok then (s1, None) else (PutFrame(s1, k, data, false), Some(data))
  }

  predicate ValidWrite(c: Core, k: PageKey, data: Bytes) {
    && ValidFileId(k.file)
    && |data| == c.cfg.pageSize
    && k.pid <= (if FileExists(c, k.file) then NumPages(c, k.file) else 0)
  }

  /** `_current_bytes`: the before-image for logging. */
  function CurrentBytes(s: Sys, k: PageKey): Option<Bytes> {
    if k in s.frames then Some(s.frames[k]) else DiskRead(s.core, k)
  }

  ghost function StoreFrame(s: Sys, k: PageKey, data: Bytes): (Sys, Option<Bytes>)
    requires FramesOk(s)
  {
    if k in s.frames then
      (PutFrame(s, k, data, true).(order := Touch(s.order, k)), Some(data))
    else
      var (s1, ok) := MakeRoom(s);
      if !ok then (s1, None) else (PutFrame(s1, k, data, true), Some(data))
  }

  ghost function WritePage(s: Sys, xid: Option<int>, k: PageKey, data: Bytes): (Sys, Option<Bytes>)
    requires FramesOk(s)
  {
    if !ValidWrite(s.core, k, data) then (s, None)
    else
      var (c, page) := LogPageUpdate(s.core, xid, k, CurrentBytes(s, k), data);
      StoreFrame(s.(core := c), k, page)
  }

  ghost function AllocatePage(s: Sys, f: string): (Sys, Option<nat>)
    requires FramesOk(s)
  {
    var (c, pid) := DiskAllocate(s.core, f);
    var k := PageKey(f, pid);
    var s1 := s.(core := c);
    var (s2, ok) := if k !in s1.frames && |s1.order| >= s1.poolSize then MakeRoom(s1) else (s1, true);
    if !ok then (s2, None) else (PutFrame(s2, k, Zeros(c.cfg.pageSize), true), Some(pid))
  }

  /** `flush` over the frames with the given keys, in order, stopping at a failed write. */
  ghost function FlushFrames(s: Sys, ks: seq<PageKey>): (Sys, bool)
    requires FramesOk(s) && forall k :: k in ks ==> k in s.frames
    decreases |ks|
  {
    if ks == [] then (s, true)
    else if !IsDirty(s, ks[0]) then FlushFrames(s, ks[1..])
    else
      var (c, ok) := WriteBack(s.core, ks[0], s.frames[ks[0]]);
      if !ok then (s.(core := c), false)
      else FlushFrames(s.(core := c, dirty := s.dirty[ks[0] := false]), ks[1..])
  }

}
